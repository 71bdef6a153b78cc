# JOS kernel monitor, modelled in Dafny

This project models the interactive kernel monitor of the JOS teaching
kernel (`kern/monitor.c`). The monitor reads one line at a time. It splits
the line in place into whitespace-separated tokens and looks the first token
up in a fixed table of five commands. It then runs that command with the
whole token list:

- `help` lists the table;
- `kerninfo` reports the link-time symbols and the kernel's size in KiB;
- `backtrace` walks the saved frame-pointer chain;
- `showmappings START END` lists page by page how each virtual page is mapped;
- `perm ADDR [+-][WU]` sets or clears one permission bit of one page-table
  entry.

A negative status from a command would end the session.

Modules, one per file:

- `types.dfy` (module `Jos`): Shared vocabulary: 32-bit words with wrap-around, `pte_t` as `bv32`, C strings, and the abstract console events.
- `parseaddr.dfy` (module `HexAddr`): `parseaddr`, plus a reference meaning of `0x`-prefixed hex and a formatter that round-trips through it.
- `perm.dfy` (module `PermAdjust`): `parse_perm_adjust`, the `&=` or `|=` update it selects, and `print_perms`.
- `mappings.dfy` (module `PageTables`): The page tables as a mutable object; `mon_showmappings` and `mon_perm`.
- `backtrace.dfy` (module `Backtrace`): `mon_backtrace` over a word-addressed memory.
- `tokenizer.dfy` (module `Tokenizer`): runcmd's in-place tokenizer over the line buffer.
- `monitor.dfy` (module `Monitor`): The command table, `mon_help`, `mon_kerninfo`, runcmd's lookup and dispatch, and the `monitor` loop.

Each command has two parts:

- a pure specification function (`MappingsSpec`, `PermSpec`,
  `BacktraceSpec`, `RunSpec`, `MonitorSpec`, …);
- a method that follows the C control flow (its loops, early returns and
  in-place updates) and whose postcondition is that specification.

`kerninfo` is the exception. It has no loop and no state, so it has only the
function `Monitor.KernInfoSpec`, and `Monitor.Invoke` returns that directly.

The properties are proved as lemmas about the specification functions.
Some loops of a C function are separate methods here, each with its own
contract:

- `Tokenizer.SkipSeparators`: runcmd's whitespace loop
- `Tokenizer.ScanToken`: runcmd's token loop
- `PageTables.WalkPages`: the walk of `mon_showmappings`
- `PageTables.UpdateEntry`: the `switch` of `mon_perm`

How the machine is modelled:

- Console output is a sequence of `Event`s, one per reported item, that
  carry the printed values. Several `cprintf` calls can make up one event:
  - a frame line spans lines 72 and 78;
  - a page row spans lines 146-156;
  - a permission report spans lines 225-227;
  - the symbol table spans lines 51-56.

  Message text is not modelled.
- Hardware state is passed in as parameters:
  - the frame-pointer register and memory (`Backtrace.Machine`);
  - the page tables (`PageTables.PageTable`);
  - the link-time symbols (`Monitor.KernelSymbols`).
- Where the C code relies on unsigned 32-bit wrap-around, the model writes
  it out:
  - accumulating digits in `parseaddr`;
  - stepping the page cursor in `showmappings`;
  - `eip - fn_addr` in `backtrace`;
  - `ROUNDUP` in `kerninfo`.

## Model

| member | source | states |
|---|---|---|
| `HexAddr.ParseHex` | kern/monitor.c:95-109 | The accepted strings are exactly `0x` followed by at most eight hex digits of either case, and their value is the digits read in base 16. |
| `HexAddr.ParseAddr` | kern/monitor.c:90-112 | The status is 0 or -1. It is 0 exactly when the reference parse succeeds, and then the out value is the parsed number. On -1 the out value is left as it was. The loop accumulates from the last digit with 32-bit `n` and `res`. |
| `HexAddr.ParseHexEmptyDigits` | kern/monitor.c:95-100 | `0x` with no digits is accepted and parses as zero, as the code does. |
| `HexAddr.HexValueFits` | kern/monitor.c:99-100 | At most eight digits always fit in 32 bits, so the length check rules out every overflow. |
| `HexAddr.AccumulateStep` | kern/monitor.c:107-108 | One loop step, computed modulo 2^32, gives exactly the value of the digit string one position longer. The weight `n` wraps only after the last digit. |
| `HexAddr.DigitLookup` | kern/monitor.c:102-106 | Looking a character up in `digits`, with the `+ 0x20` fold for `A`-`F`, yields that character's hex value. Any other character is not a digit. |
| `HexAddr.DigitIndex` | kern/monitor.c:102 | `strchr(digits, c)`: when c is in `0123456789abcdef`, the result is its position there. Otherwise the result is none. |
| `HexAddr.Lower` | kern/monitor.c:103-104 | The `+ 0x20` fold of `A`-`F` never changes a character's hex value. |
| `HexAddr.HexValueFoldCase` | kern/monitor.c:103-104 | Folding upper-case digits to lower case never changes a digit string's value. |
| `HexAddr.HexDigitsRoundTrip` | kern/monitor.c:87-89 | For any number that fits in n ≤ 8 digits, `0x` plus its n-digit spelling parses back to that number. |
| `HexAddr.ParseFormatRoundTrip` | kern/monitor.c:87-89 | `0x` plus eight lower-case digits of any word parses back to that word. |
| `HexAddr.FormatAddr` | kern/monitor.c:87-89 | Every word has a spelling that parses back to it. |
| `PermAdjust.FlagBit` | kern/monitor.c:182-191 | Only `W` and `U` name a bit, namely `PTE_W` and `PTE_U`. |
| `PermAdjust.ParsePermAdjust` | kern/monitor.c:164-196 | The operator is non-NUL exactly for a two-character `+W`, `+U`, `-W` or `-U`. `+` gives `\|` with the bit, and `-` gives `&` with the bit's complement. On any error, NUL is returned and `out` is untouched. |
| `PermAdjust.AndWith` | kern/monitor.c:215-216 | `*pte &= mask` keeps the bits inside the mask and clears every bit outside it. |
| `PermAdjust.OrWith` | kern/monitor.c:218-219 | `*pte \|= mask` sets every bit of the mask and keeps every bit outside it. |
| `PermAdjust.Apply` | kern/monitor.c:214-220 | The `&` operator selects the `&=` update (`AndWith`), and `\|` selects `\|=` (`OrWith`). |
| `PermAdjust.PermString` | kern/monitor.c:114-121 | `W` is printed exactly when the writable bit is set, and `U` exactly when the user bit is, with `W` first. Nothing else is printed. |
| `PermAdjust.ParsedIsFlagAdjust` | kern/monitor.c:169-193 | A successful parse yields OR-with-the-bit for `+` and AND-with-its-complement for `-`. |
| `PermAdjust.ApplyChangesOnlyFlag` | kern/monitor.c:214-220 | Such an adjustment sets the bit for OR and clears it for AND. Every other bit of the entry stays as it was. |
| `PermAdjust.ApplyKeepsFrame` | kern/monitor.c:214-220 | Such an adjustment keeps the present bit and the physical frame address. |
| `PermAdjust.ParsedKeepsOtherBits` | kern/monitor.c:164-196 | A parsed directive changes no bit except the one its letter names. |
| `PermAdjust.ParsedGrantSets` | kern/monitor.c:170-171 | A parsed `+` directive sets its bit. |
| `PermAdjust.ParsedRevokeClears` | kern/monitor.c:173-174 | A parsed `-` directive clears its bit (the `mask ^= ~0` complement). |
| `PermAdjust.ParsedKeepsFrame` | kern/monitor.c:214-220 | A parsed directive keeps the present bit and frame address of any entry. |
| `PermAdjust.ApplyShows` | kern/monitor.c:225-227 | After a directive, the named letter is printed exactly for `+`. The other letter is printed exactly when it was before. |
| `PermAdjust.OtherFlag` | kern/monitor.c:114-121 | Entries that agree outside one flag bit print the other flag the same. |
| `PageTables.PageTable.constructor` | kern/monitor.c:147 | The page tables start with the given entries. |
| `PageTables.Lookup` | kern/monitor.c:147 | `pgdir_walk` over the abstract tables: an address has an entry exactly when the page holding it does. |
| `PageTables.LookupWithinPage` | kern/monitor.c:147 | Every address inside an aligned page is translated by that page's entry and no other. |
| `PageTables.Classify` | kern/monitor.c:147-154 | A page shows as unmapped exactly when it has no entry or the entry's present bit is clear. Otherwise it shows the frame address and the W/U letters of the entry. |
| `PageTables.Rows` | kern/monitor.c:145-157 | The listing has one row per page between START and END. |
| `PageTables.PageWalk` | kern/monitor.c:144-145 | Stepping from aligned START by `PGSIZE` modulo 2^32 reaches END after `(END - START) mod 2^32 / PGSIZE` steps. Before that it visits only aligned pages other than END, each at most once. This includes the wrap-around case of the hint comment. |
| `PageTables.WalkDistance` | kern/monitor.c:145 | After k steps the cursor lies k pages further from START and correspondingly closer to END. |
| `PageTables.NoWrapRange` | kern/monitor.c:145 | When START ≤ END the walk visits exactly the pages START, START + 4096, … below END. |
| `PageTables.PageCountEdges` | kern/monitor.c:144 | START = END lists no page. `0xfffff000 0x0` lists exactly the page at `0xfffff000`. |
| `PageTables.ShowMappingsRejects` | kern/monitor.c:126-140 | A wrong argument count, an unparsable address or a misaligned address gives one error line and no rows. That reply does not depend on the page tables. |
| `PageTables.MappingsArgError` | kern/monitor.c:132-140 | The addresses are checked in order. The first one that fails to parse, or is misaligned, is the one reported. |
| `PageTables.MappingsSpec` | kern/monitor.c:123-159 | The reference meaning of `showmappings` always returns 0 and prints at least one line. Its cases are stated by `ShowMappingsRejects`, `MappingsArgError` and `MappingsOk`. |
| `PageTables.MappingsOk` | kern/monitor.c:141-157 | With two valid aligned addresses the reply is the header followed by the rows. |
| `PageTables.ShowMappings` | kern/monitor.c:123-159 | The reply equals `MappingsSpec`: usage, parse and alignment errors in source order, then the header and a row for every page. The page tables are only read. |
| `PageTables.WalkPages` | kern/monitor.c:145-157 | The loop `for (i = START; i != END; i += PGSIZE)` yields exactly `Rows`. |
| `PageTables.EmptyRange` | kern/monitor.c:143-145 | `showmappings A A` prints the header and no rows. |
| `PageTables.ShowOnePage` | kern/monitor.c:145-157 | `showmappings P P+4096` lists exactly page P. |
| `PageTables.PermUnchangedUnlessApplies` | kern/monitor.c:204-213 | `perm` never adds or removes an entry. It changes nothing on a usage error, an unmapped page or a non-present entry, and its status is always 0. |
| `PageTables.PermSpec` | kern/monitor.c:198-229 | The reference meaning of `perm` always returns 0 and prints exactly one line. The tables keep the same set of mapped pages. |
| `PageTables.PermUsage` | kern/monitor.c:204-207 | A wrong argument count, a bad address or a bad directive gives the usage line and changes nothing. |
| `PageTables.PermNotMapped` | kern/monitor.c:209-213 | A page without a present entry is reported unmapped and the tables stay the same. |
| `PageTables.PermReplacesOneEntry` | kern/monitor.c:214-227 | When `perm` applies, it replaces only the addressed page's entry, with the adjusted value. It reports the adjusted value's letters. |
| `PageTables.Perm` | kern/monitor.c:198-229 | The reply and the new page tables equal `PermSpec` of the old ones. |
| `PageTables.UpdateEntry` | kern/monitor.c:214-224 | `*pte &= mask` or `*pte \|= mask` writes exactly the adjusted entry and nothing else. The panic branch cannot be reached. |
| `PageTables.MappingsLine` | kern/monitor.c:132-133 | The command line `showmappings START END` parses back to START and END. |
| `PageTables.PermLine` | kern/monitor.c:204 | The command line `perm ADDR D` parses back to ADDR. |
| `PageTables.RevokeUserEntry` | kern/monitor.c:198-229 | `perm P -U` on a present page writes back an entry that is still present, maps the same frame, lacks U and keeps W. |
| `PageTables.RevokeUserThenShow` | kern/monitor.c:123-159 | After `perm P -U`, `showmappings` over P shows it mapped to the same frame, without U, and with W as before. |
| `Backtrace.Truncate` | kern/monitor.c:78-80 | `%.*s` prints exactly the first `len` characters of a longer name, and the whole name when it is short enough. The name is a C string, so it has no NUL to stop at earlier. |
| `Backtrace.FrameAt` | kern/monitor.c:68-81 | A frame line shows `ebp`, `eip = ebp[1]` and `args[j] = ebp[2 + j]` for five arguments. It shows the file and line that the debug info gives for `eip`, and the function name truncated to its recorded length. The offset is the int32 reading of `eip - fn_addr` modulo 2^32, which is what `%d` prints. |
| `Backtrace.Frames` | kern/monitor.c:67-83 | There is one line per frame of the chain. |
| `Backtrace.BacktraceSpec` | kern/monitor.c:62-85 | The report is a header followed by exactly one line per frame of the chain. |
| `Backtrace.ChainFrom` | kern/monitor.c:67-82 | A frame chain is empty exactly when the starting frame pointer is 0. No frame of a chain is at address 0. |
| `Backtrace.Backtrace` | kern/monitor.c:62-85 | The loop prints the header and then one line per chained frame, innermost first, and returns 0. |
| `Backtrace.ChainLinks` | kern/monitor.c:67-82 | In a chain, each frame's saved pointer is the next frame, the first frame is the register value, and the last frame's saved pointer is 0. |
| `Backtrace.LinksChain` | kern/monitor.c:67-82 | Conversely, a list of frames linked that way is the chain. |
| `Backtrace.ChainUnique` | kern/monitor.c:67-82 | A frame pointer determines its chain. |
| `Backtrace.ChainSuffix` | kern/monitor.c:82 | Every suffix of a chain is the chain of its first frame. |
| `Backtrace.ChainDistinct` | kern/monitor.c:67-83 | A finite chain never revisits a frame. |
| `Backtrace.BacktraceReport` | kern/monitor.c:65-83 | The report is the header followed by, for each k, the frame line of the k-th frame. |
| `Backtrace.OffsetIsDistance` | kern/monitor.c:81 | When the distance fits in an int32, the printed offset is exactly `eip - fn_addr`. |
| `Tokenizer.CLen` | kern/monitor.c:244-251 | The C string ends at the first NUL. |
| `Tokenizer.CLenAt` | kern/monitor.c:262 | A NUL with none before it marks the string's end. |
| `Tokenizer.Starts` | kern/monitor.c:246-261 | Every recorded start is a token start: a non-separator that is first in the line or follows a separator. |
| `Tokenizer.Tokens` | kern/monitor.c:246-261 | There is one token per recorded start. The tokens' shape is stated by `TokenShape`, and what the buffer holds at each start by `ReadBack`. |
| `Tokenizer.TokenEndFacts` | kern/monitor.c:259-260 | The token before its end has no separator, and its end is a separator or the end of the line. |
| `Tokenizer.StartsBelowExact` | kern/monitor.c:246-261 | The recorded starts are exactly the token-start positions, strictly increasing. |
| `Tokenizer.StartsExact` | kern/monitor.c:246-261 | The same for the whole line. |
| `Tokenizer.TokenShape` | kern/monitor.c:246-261 | Each token is a nonempty maximal run of non-separators. |
| `Tokenizer.SkipSeparators` | kern/monitor.c:247-249 | The whitespace loop overwrites exactly the separators it passes with NUL. It stops at the end of the line or at a token start, and records no start. |
| `Tokenizer.ScanToken` | kern/monitor.c:258-260 | The token loop stops at that token's end, changes nothing, and records exactly one start. |
| `Tokenizer.SixteenthStart` | kern/monitor.c:254-257 | Finding a start after fifteen others means the line has at least sixteen tokens, and this is the sixteenth. |
| `Tokenizer.Tokenize` | kern/monitor.c:243-262 | With fewer than sixteen tokens, `argv[0..argc)` are the token starts in order, `argv[argc]` is null, and every separator of the line is NUL. On a sixteenth token it stops, and only the separators before it have been overwritten. Nothing else in the buffer changes. |
| `Tokenizer.ReadBack` | kern/monitor.c:248-262 | In the tokenized buffer, the C string at each recorded start is exactly that token. |
| `Tokenizer.OneWord` | kern/monitor.c:246-262 | A line without separators is one token, the whole line. |
| `Tokenizer.NoStarts` | kern/monitor.c:246-252 | A line of separators has no tokens. |
| `Monitor.NamesDistinct` | kern/monitor.c:25-31 | The five command names are distinct. |
| `Monitor.FindCommand` | kern/monitor.c:267-270 | The lookup over the five-entry table `commands[]` returns an entry carrying the name, or none when no entry carries it. |
| `Monitor.FindFrom` | kern/monitor.c:267-270 | The scan returns the first entry from i on whose name matches, or none. |
| `Monitor.FindCommandIff` | kern/monitor.c:267-270 | The lookup finds entry i exactly when entry i carries that name. |
| `Monitor.HelpSpec` | kern/monitor.c:39-42 | `help` prints one line per table entry. |
| `Monitor.Help` | kern/monitor.c:36-44 | The loop prints every entry's name and description in table order, and returns 0. |
| `Monitor.HelpMatchesDispatch` | kern/monitor.c:36-44 | Help lists a name exactly when the dispatcher accepts it, and no name twice. |
| `Monitor.RoundUp1024` | kern/monitor.c:58-59 | 32-bit `ROUNDUP(x, 1024)` is a multiple of 1024. |
| `Monitor.FootprintKB` | kern/monitor.c:58-59 | The footprint times 1024 is the rounded size read as an int32, so the division is exact. |
| `Monitor.FootprintIsCeiling` | kern/monitor.c:58-59 | For images under 2 GiB less 1 KiB, the footprint is the size in KiB rounded up. |
| `Monitor.KernInfoSpec` | kern/monitor.c:46-60 | `kerninfo` prints the symbol table and then the footprint line. |
| `Monitor.Invoke` | kern/monitor.c:269 | Calling an entry's handler gives the reply and page tables that `HandlerSpec` names. |
| `Monitor.RunSpec` | kern/monitor.c:236-273 | The reference meaning of runcmd: no line adds or removes a mapped page. Its cases are stated by `BlankLineIsNoop`, `UnknownName`, `OnlyPermWrites` and `RunCmd`. |
| `Monitor.ArgStrings` | kern/monitor.c:262-269 | The strings `argv[0..argc)` point at are the tokens of the line. |
| `Monitor.RunCmd` | kern/monitor.c:236-273 | The reply and page tables equal `RunSpec` of the line. Too many tokens, an empty line and an unknown name each change nothing. Otherwise the first matching entry's handler runs on every token. Afterwards the buffer has NUL over every separator scanned: all of them, or, when there are too many tokens, those before the sixteenth token. |
| `Monitor.RunStatusZero` | kern/monitor.c:20-31 | Every line returns status 0 with this table. |
| `Monitor.OnlyPermWrites` | kern/monitor.c:25-31 | Only a `perm` line can change the page tables. |
| `Monitor.BlankLineIsNoop` | kern/monitor.c:265-266 | A blank line prints nothing and changes nothing. |
| `Monitor.HelpLineRuns` | kern/monitor.c:267-270 | The line `help` prints the table. |
| `Monitor.UnknownName` | kern/monitor.c:265-272 | Whenever a line has between one and fifteen tokens and its first token names no entry, the reply is that name's unknown-command line and the tables are unchanged. |
| `Monitor.UnknownLine` | kern/monitor.c:271-272 | As an instance, the line `halt` is reported unknown and nothing else happens. |
| `Monitor.MonitorSpec` | kern/monitor.c:283-288 | The session never reads past the input. Unless it has exited, it has read every line. |
| `Monitor.MonitorUnfold` | kern/monitor.c:283-288 | One iteration: a null line is skipped. Otherwise the line is run, and a negative status stops the loop. |
| `Monitor.LineBuffer` | kern/monitor.c:284 | The buffer handed to runcmd holds the line and its terminating NUL. |
| `Monitor.Monitor` | kern/monitor.c:275-289 | The loop's events, page tables, exit flag and line count equal `MonitorSpec`. |
| `Monitor.MonitorNeverExits` | kern/monitor.c:20-31 | With this table the monitor never exits and reads every line. |

## Left out

- Console text is not modelled. Each message is an `Event` carrying its values, without field widths or wording. The welcome banner (lines 280-281) and the prompt are not modelled.
- Three printf calls are formatted inconsistently in the source, and the events record the intended values instead:
  - line 134 prints `argv[i]` where the failing argument is `argv[i+1]`;
  - lines 211 and 225 print `%08x` without passing the address.
- `readline` is not part of this model. Input is a finite list of lines, with `None` for a null line, so the session also ends when the list does. The C loop never ends on its own.
- `read_ebp`, `rcr3` and `KERNBASE` are not modelled. The frame-pointer register, memory and page tables are parameters.
- `pgdir_walk` is not part of this model. It is a lookup of the page's base address in a map of entries, so the two-level page directory and large pages are not modelled.
- `debuginfo_eip` is not part of this model. It is a function parameter of the machine.
- `Backtrace.Backtrace`: it requires a finite, zero-terminated frame chain. A cyclic or corrupt chain, which makes the C loop run forever or fault, is not modelled.
- `Monitor.Invoke`: it requires that finite frame chain for every command, because the chain is a ghost parameter shared by all handlers, although only `backtrace` walks it.
- `Monitor.RunCmd`: it requires the finite frame chain for every line, for the same reason.
- `Monitor.Monitor`: it requires the finite frame chain for the whole session, for the same reason.
- `Monitor.KernInfoSpec`: it reports only the virtual symbol addresses, not the `- KERNBASE` physical column. `ROUNDUP` comes from `inc/types.h`, which is not part of this model; the usual JOS definition is used.
- The handlers ignore the `Trapframe` argument, and so does the model.
- `mon_perm` leaves `mask` uninitialised. The model passes 0, which is only read when parsing fails and is then unused.
- `parseaddr` accepts `0x` with no digits and yields 0 (`HexAddr.ParseHexEmptyDigits`).
- `argv` holds indices into the line buffer instead of pointers.
- `strcmp` becomes equality of C strings.
- `strchr(WHITESPACE, c)` becomes `IsSpace` on a non-NUL character.
