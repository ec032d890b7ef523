# A verified model of the xv6 user allocator, shell, `ps`/`pstate`, `prime` and the random generators

This project models, in Dafny, the sequential core of a small xv6-riscv
course repository:

- the best-fit Kernighan & Ritchie allocator of the user library
  (`malloc`, `free`, `morecore`, the static `base` and `freep`);
- the shell `ysh`: `readcmd`, `runcmd` and the read loop of `main`;
- `ps` and the `sys_pstate` system call: the encoding of the process-state
  letters into negative arguments and their decoding into a bit mask;
- `prime`, which finds the n-th prime by trial division;
- the multiplicative generators `urand` (user) and `rand` (kernel).

Modules and files:

| file | module | models |
|---|---|---|
| `ulib.dfy` | `Ulib` | decimal digits and `atoi` |
| `freelist.dfy` | `FreeList` | the heap as values: blocks, the free ring, the allocated headers, the best-fit choice, carving, inserting and merging, with the invariants they keep |
| `umalloc.dfy` | `Umalloc` | class `Allocator`: `malloc`, `free` and `morecore` as methods updating the ring, `freep`, the headers and the break |
| `shell.dfy` | `Shell` | `runcmd` and `readcmd` on a character array, and the read loop |
| `procstate.dfy` | `ProcState` | `is_valid_num`, the argument loop of `ps`, `sys_pstate`, and the round trip between them |
| `prime.dfy` | `Prime` | the nested loops of `prime` |
| `random.dfy` | `Random` | `urand` and `rand` with their static state |

The allocator addresses memory in header units. A block is a header address
and a size in units. The free list is a sequence holding the ring in address
order: the size-0 `base` first, the highest block last, and each block's
link implicitly pointing to the next one. `freep` is a position in that
sequence. The allocated blocks are a map from header address to the size
stored in the header, and the program break is a field. The class invariant
`Heap` says:

- the ring is strictly increasing and its blocks do not touch;
- every heap block lies below the break;
- allocated blocks do not overlap each other or any free block.

`malloc`, `free` and `morecore` keep this invariant. Each method is also
proved equal to a function on values (`Take`, `Coalesce`, `Grow`), and
lemmas state what those functions promise: the best fit, exact sizes and
no overlap.

The shell on the source side is the one in `user/ysh.c`. It has no
tokenizer, pipes, redirection or background jobs: the whole trimmed line
becomes `argv[0]` of the program run. The model follows that code.

## Model

| member | source | states |
|---|---|---|
| FreeList.Units | user/umalloc.c:89 | the unit count of a request is at least 1 |
| FreeList.UnitsCover | user/umalloc.c:89 | the units after the header hold the request with less than one unit to spare, and the count fits a `uint` |
| FreeList.BestUpToCorrect | user/umalloc.c:100-111 | after k steps of the scan from `freep`, the candidate is the smallest fitting block among the first k visited, the first such one on ties, and none exists exactly when no visited block fits |
| FreeList.BestIsBestFit | user/umalloc.c:100-115 | a full pass chooses a block exactly when some block fits, and then chooses the smallest fitting block, earliest in scan order on ties |
| FreeList.BestFitUnique | user/umalloc.c:106 | the strict `<` makes the best fit unique |
| FreeList.BaseNeverChosen | user/umalloc.c:89-95 | since at least one unit is asked for, the size-0 `base` is never chosen |
| FreeList.CarveTotal | user/umalloc.c:121-134 | carving removes exactly `n` units from the free list |
| FreeList.Carve | user/umalloc.c:121-134 | an exact fit unlinks only the chosen block; a split shortens only the chosen block, by `n`, keeping its address; the blocks before it, its predecessor included, keep their places |
| FreeList.CarveKeepsRing | user/umalloc.c:121-134 | the ring stays address-ordered and non-touching after carving |
| FreeList.CarveKeepsHeap | user/umalloc.c:129-141 | the piece handed out is a fresh header, disjoint from every free and allocated block, and the heap invariant holds after it is recorded |
| FreeList.SlotFrom | user/umalloc.c:43-45 | the last block below the address, searching down from position k |
| FreeList.Slot | user/umalloc.c:43-45 | the slot is the last free block whose address is below the freed header |
| FreeList.Merged | user/umalloc.c:46-55 | the merged block starts where the block before the slot starts when that block ends at the freed one, and ends where the next block ends when the freed block ends where that one starts |
| FreeList.Coalesce | user/umalloc.c:46-55 | the blocks below the slot keep their places, the merged block follows them, and the blocks above the absorbed ones follow unchanged; the list gains one block and loses one per neighbour absorbed |
| FreeList.MergedSize | user/umalloc.c:46-55 | the merged block holds the freed block's units plus those of the blocks it absorbs |
| FreeList.CoalesceTotal | user/umalloc.c:46-55 | freeing adds exactly the freed block's units to the free list |
| FreeList.SlotBounds | user/umalloc.c:43-55 | the slot block ends at or below the freed block, and the freed block ends at or below the next free block |
| FreeList.FreeSeparated | user/umalloc.c:46-55 | after merging, the ring is still strictly increasing with no two blocks touching |
| FreeList.FreeKeepsRing | user/umalloc.c:46-56 | after merging, the free ring still starts at `base` and every block is non-empty and below the break |
| FreeList.FreeKeepsApart | user/umalloc.c:46-55 | the remaining allocated blocks stay disjoint from every free block |
| FreeList.FreeKeepsHeap | user/umalloc.c:37-57 | `free` keeps the heap invariant, with the block removed from the allocated set |
| FreeList.SearchStopsAtSlot | user/umalloc.c:43-45 | the search loop's exit test (between `p` and its successor, or past the wrap point) holds exactly at the slot |
| FreeList.GrowSlot | user/umalloc.c:70-72 | a region at or above the break is linked in after the highest free block |
| FreeList.GrowKeepsHeap | user/umalloc.c:67-72 | the new region at the old break is a fresh header, and the heap invariant holds with it allocated and the break moved past it |
| FreeList.CoalesceFits | user/umalloc.c:71-72 | after freeing a block of at least `n` units, some free block fits `n` |
| FreeList.Take | user/umalloc.c:115-141 | the block taken is the best fit, `freep` becomes its predecessor, and the returned header is the last `n` units of the chosen block |
| FreeList.TakeKeepsHeap | user/umalloc.c:115-141 | taking keeps the heap invariant with a fresh header, keeps `freep` in the list, and removes exactly `n` units from the free list |
| FreeList.Grow | user/umalloc.c:65-73 | after `morecore` frees `Grown(n)` units at the break, the ring still starts at `base` and a block fits `n` |
| Umalloc.Grown | user/umalloc.c:65-66 | `morecore` asks for at least the request and at least 4096 units |
| Umalloc.Outcome | user/umalloc.c:100-148 | when some block fits, the pass takes the best fit of the list scanned from `freep`; otherwise it takes the best fit of the list grown by `morecore`, scanned from the old highest block; the header returned is the last `n` units of the block taken |
| Umalloc.Allocator.constructor | user/umalloc.c:21-22 | before the first `malloc` there is no free list (`freep == 0`) and nothing is allocated |
| Umalloc.Allocator.Scan | user/umalloc.c:100-115 | one pass of the `malloc` loop returns the best fit and its predecessor, or nothing exactly when no block fits |
| Umalloc.Allocator.Search | user/umalloc.c:43-45 | the search loop of `free` stops at the slot |
| Umalloc.Allocator.Link | user/umalloc.c:46-55 | the pointer updates of `free` produce `Coalesce` of the list and change nothing else |
| Umalloc.Allocator.Free | user/umalloc.c:37-57 | `free` keeps the invariant, sets `freep` to the slot, leaves the list as `Coalesce`, drops the header and returns its units to the free list |
| Umalloc.Allocator.MoreCore | user/umalloc.c:59-74 | when `sbrk` fails nothing changes; otherwise the break moves by `Grown(n)`, the region is freed into the list (`Grow`) and `freep` is the old highest block |
| Umalloc.Allocator.Cut | user/umalloc.c:121-134 | the unlink or shrink of the chosen block produces `Carve` of the list |
| Umalloc.Allocator.TakeBlock | user/umalloc.c:115-141 | the end of a successful pass gives `Take` of the list, records a fresh header of `n` units and keeps the invariant |
| Umalloc.Allocator.Find | user/umalloc.c:100-148 | a block is found exactly when one fits or `sbrk` succeeds; the block found is the one `Outcome` describes; the break moves only when growing; on failure the list and `freep` are unchanged |
| Umalloc.Allocator.Malloc | user/umalloc.c:78-150 | `malloc` initialises `base` on the first call and returns null exactly when nothing fits and `sbrk` fails, leaving the state unchanged; otherwise it records a fresh header of `Units(nbytes)` units and leaves the list and `freep` as `Outcome` says |
| Shell.StrLen | user/ysh.c:59 | `strlen` is the index of the first NUL |
| Shell.Trim | user/ysh.c:55-61 | the trimmed line neither starts nor ends with a space, and the line is the trimmed line with only spaces before and after it |
| Shell.TrimUnique | user/ysh.c:55-61 | trimming is characterised by its result: the part between leading and trailing spaces that neither starts nor ends with a space |
| Shell.TrimIdempotent | user/ysh.c:55-61 | trimming twice is trimming once |
| Shell.TrimEmpty | user/ysh.c:55-61 | a line trims to nothing exactly when it is all spaces |
| Shell.Dispatch | user/ysh.c:64-109 | only "exit" returns 0, every other path returns 1; "cd " lines change directory to the rest of the line; any other line runs with `argv` the line alone |
| Shell.SkipSpaces | user/ysh.c:55-57 | the leading loop stops at the first non-space, which is where the left-trimmed line starts |
| Shell.StripTrailing | user/ysh.c:59-61 | the trailing loop overwrites exactly the trailing spaces with NUL and stops at a non-space, or steps off the front of the buffer |
| Shell.TrimmedShape | user/ysh.c:55-61 | when both loops stop at non-spaces, the line is not all spaces and the command between them is the trimmed line |
| Shell.TrimmedCommand | user/ysh.c:55-61 | the command the two loops delimit is the trimmed line |
| Shell.TrimmedBuffer | user/ysh.c:59-61 | the buffer the trailing loop leaves is the line with its trailing spaces turned into NUL |
| Shell.RunCmd | user/ysh.c:49-110 | as written: an empty line returns 1 and changes nothing, an all-space line reads before the buffer, any other line is dispatched trimmed |
| Shell.RunCmdChecked | user/ysh.c:49-110 | with the empty test after the leading spaces, every line runs; an all-space line returns 1 and changes nothing |
| Shell.SpacesFault | user/ysh.c:59 | a line of two spaces makes `runcmd` as written read before the buffer |
| Shell.Loaded | user/ysh.c:14-15 | after `memset` and `gets`, the buffer holds the line's C string |
| Shell.Load | user/ysh.c:14-15 | the buffer after `memset` and `gets` is `Loaded(line)` |
| Shell.ReadCmd | user/ysh.c:11-23 | as written: a null read gives null, an empty read writes before the buffer, otherwise the last character is overwritten with NUL |
| Shell.Chomp | user/ysh.c:17-20 | chopping removes at most a final newline |
| Shell.ReadCmdChecked | user/ysh.c:11-23 | with the chop applied only to a newline, reading never faults and leaves the line without its newline |
| Shell.EmptyReadFaults | user/ysh.c:19 | an empty read makes `readcmd` as written write before the buffer |
| Shell.ReadVersionsAgree | user/ysh.c:18-20 | on a newline-terminated line both versions of `readcmd` agree |
| Shell.RespondMatchesRun | user/ysh.c:41 | what the loop does with a line is the corrected `runcmd` on the buffer the corrected `readcmd` leaves |
| Shell.Turn | user/ysh.c:41 | one turn of the loop over the corrected versions is `readcmd` and then, for a line, `runcmd` |
| Shell.TurnAsWritten | user/ysh.c:41 | one turn with `readcmd` and `runcmd` as written: a null read ends the loop, an empty read faults, and on a whole newline-terminated line it does what `Turn` does, except that a line of spaces faults |
| Shell.Session | user/ysh.c:41 | the read loop over the corrected versions takes exactly the actions `SessionSpec` lists, stopping at the first null read or 0 return |
| Shell.StopAt | user/ysh.c:41 | the loop makes exactly one turn more than the turns before the first stop |
| Shell.ExitEndsSession | user/ysh.c:41-66 | nothing after an "exit" line is read |
| Ulib.DigitRun | user/ps.c:58 | `atoi` reads exactly the leading run of digits |
| Ulib.DecimalZero | user/ps.c:58-61 | a digit string is worth 0 exactly when every digit is '0' |
| Ulib.Atoi | user/ps.c:58 | on a string of digits `atoi` reads the whole string; the result is 0 exactly when the leading digits, if any, are all '0' |
| ProcState.LetterCode | user/ps.c:16-21 | every state letter's encoding is negative |
| ProcState.IsValidNum | user/ps.c:24-32 | `is_valid_num` holds exactly when every character is a digit, so also for "" |
| ProcState.ArgValue | user/ps.c:58-81 | a word is accepted exactly when it is a lone state letter or a digit string worth more than 0; a letter is stored as its negative code, a number as its positive value |
| ProcState.ParseArgs | user/ps.c:38-88 | the argument loop computes `ParseSpec`, and on success fills all six slots |
| ProcState.RefusedWord | user/ps.c:84-87 | one refused word makes the command line a request for help |
| ProcState.FilledSlots | user/ps.c:45-81 | when every word is accepted, slot i - 1 holds word i's value and later slots hold 0 |
| ProcState.ZeroIsNotAPid | user/ps.c:61 | "0" and "00" are not accepted as numbers |
| ProcState.LongLetterWordRefused | user/ps.c:65-66 | a longer word starting with a state letter is refused |
| ProcState.SysPState | kernel/sysproc.c:98-132 | `sys_pstate` returns 0, and its mask is the OR of the 8-bit contributions of the first six arguments before the first 0 |
| ProcState.OptionBits | kernel/sysproc.c:108-125 | every argument before the first 0 has all of its contribution's bits in the mask, and the mask is 0 when those arguments are all pids |
| ProcState.AccumulateStep | kernel/sysproc.c:115-116 | a negative argument ORs its contribution into the mask the loop is building |
| ProcState.PidStep | kernel/sysproc.c:119-121 | a positive argument leaves the mask unchanged |
| ProcState.ZeroStep | kernel/sysproc.c:122-124 | at the first 0 the mask is complete |
| ProcState.OptionBitsStopAtZero | kernel/sysproc.c:122-124 | arguments after the first 0 have no effect |
| ProcState.OptionBitsIgnorePid | kernel/sysproc.c:119-121 | a pid anywhere before the first 0 leaves the mask unchanged |
| ProcState.LetterRoundTrip | kernel/sysproc.c:90-116 | each letter's encoding (-1, -2, -4, -8) decodes to its own state bit (1, 2, 4, 8) |
| ProcState.WordDecodes | user/ps.c:58-81 | an accepted argument is stored nonzero and decodes to its letter's bit, or to nothing for a pid |
| ProcState.ValuesDecode | user/ps.c:55-81 | the mask of the stored values is the OR of the bits the words name |
| ProcState.ParseThenDecode | user/ps.c:93 | parsing and then `sys_pstate` yield exactly the bits the words name |
| ProcState.RequestedHasBit | user/ps.c:65-81 | a state's bit is in the mask exactly when one of the words names that state |
| ProcState.RequestedInLowNibble | kernel/sysproc.c:90-95 | the mask from `ps` uses only the four state bits |
| ProcState.Ps | user/ps.c:36-100 | `ps` exits with 1 exactly for a refused command line and with 0 exactly for an accepted one, and then passes the mask of exactly the states named |
| ProcState.ExampleParse | user/ps.c:55-81 | `ps S Z 7` passes -1, -8, 7 and three zeros |
| ProcState.ExampleMask | kernel/sysproc.c:108-125 | those arguments give the mask 9 (Sleep and Zombie) |
| Prime.LeastDivisorFrom | user/prime.c:18-20 | the least divisor of n at or above d divides n and nothing below it does |
| Prime.PrimeAbove | user/prime.c:17 | there is a prime above every number, which bounds the outer loop |
| Prime.NthPrime | user/prime.c:16-24 | for n <= 0 the answer is 1; otherwise it is the n-th prime, 2 being the first |
| Prime.FirstPrimes | user/prime.c:24 | the first three primes are 2, 3 and 5 |
| Prime.PrimeCommand | user/prime.c:6-27 | exactly one argument is required (status 1 otherwise); the answer printed is that of `atoi(argv[1])` |
| Random.Step | user/random.c:7 | a step's result is below 2^31 - 1 |
| Random.StepExactWhenNoWrap | user/random.c:7 | while `16807 * state` fits in 32 bits the step is exact Park-Miller |
| Random.StepDiffersFromParkMiller | user/random.c:7 | the 32-bit wrap makes the step differ from exact Park-Miller |
| Random.StepReachesZero | user/random.c:7 | 0 is a fixed point, and because of the wrap a nonzero state reaches it |
| Random.IterateAdd | user/random.c:5-8 | running a steps after b steps is running a + b steps |
| Random.UserSequenceStart | user/random.c:6-7 | the first values `urand` returns from the seed 12 |
| Random.UserRand.constructor | user/random.c:6 | the state starts at 12 |
| Random.UserRand.URand | user/random.c:5-8 | each call stores and returns the step of the state; the n-th call returns the step applied n times to 12 |
| Random.KernelRand.constructor | kernel/random.c:7 | the state starts at 0 |
| Random.KernelRand.Rand | kernel/random.c:6-9 | while the state is 0 a call stores `random` unchanged; otherwise it stores the step; it returns the new state |
| Random.KernelTwoCalls | kernel/random.c:6-9 | from a zero state, the first call returns the seed and the second its step |

## Left out

- I/O is not modelled: the console, `printf`/`fprintf`, `print_help` and the `freelist()` printing routine of user/umalloc.c.
- Process plumbing is not modelled. `fork`, `exec`, `wait` and `chdir` in `runcmd` become an `Action` value, and their failures do not change the result. The `open("console")` loop of the shell's `main` is left out.
- `gets` is a parameter of `readcmd`: the line it stores, or `None` for a null return.
- `sbrk` is a boolean parameter of `malloc` and `morecore` saying whether it succeeds. On success the new region starts at the current break. The conversion of `nu * sizeof(Header)` to the `int` argument of `sbrk` is not modelled.
- Umalloc.Allocator.Free: requires that `ap` is one unit past a header handed out by `malloc` and not yet freed. Freeing anything else is undefined in the C code and is not modelled.
- Block sizes are unbounded integers. A merged block larger than a 32-bit `uint` would wrap in C, and that wrap is not modelled.
- The pointer links are implicit in the order of the ring's sequence, so aliasing between header memory and other data is not modelled.
- Ulib.Atoi: unbounded; it is the decimal value of the leading digits, with no sign, no white space and no 32-bit overflow.
- ProcState.Ps, ProcState.ParseThenDecode: a number word is stored with its unbounded value. In C `atoi` and `args[]` are `int`, so a word worth 2^31 or more wraps in practice: `ps 4294967295` stores -1, which `sys_pstate` reads as Sleep, while the model stores a pid that sets no bit. The contracts describe the C program only for number words below 2^31.
- ProcState.ParseArgs, ProcState.Ps: the words are C strings, with no NUL inside them, as every `argv` word is.
- Prime.PrimeCommand, Prime.NthPrime: `n` and the candidate `i` are unbounded. In C `atoi(argv[1])` is an `int`, so `prime 4294967295` has n = -1 and prints 1. The loop counter `i` overflows once the answer would pass 2^31 - 1, that is for n above about 105 million, the number of primes below 2^31. The contracts describe the C program only below those bounds.
- Shell.Turn, Shell.Session, Shell.RespondMatchesRun: the read loop is modelled over the corrected `readcmd` and `runcmd`. As written, an empty read or a line of spaces makes a turn write or read outside the buffer (see Findings and `Shell.TurnAsWritten`); what the loop does after such a fault is undefined and is not modelled.
- `argint` is modelled by the `regs` parameter of `SysPState`. The kernel `random` seed is a parameter of `Rand`.
- `pstate` returning nonzero cannot happen, since `sys_pstate` always returns 0. `Ps` keeps the branch.
- The threads library, its tests and the `malloctest` driver are not part of this model.

## Findings

| source | as written | input that shows it | evidently intended | confidence | as-written member | corrected member |
|---|---|---|---|---|---|---|
| user/ysh.c:50-61 | the empty-line test comes before the leading spaces are skipped, so a line of spaces reaches the trailing loop with `cmd` at its NUL and `c` at `cmd - 1` | the line "  " | a line of spaces is treated as empty and returns 1 | high (not executed) | Shell.SpacesFault | Shell.RunCmdChecked |
| user/ysh.c:18-20 | the last character of whatever `gets` stored is overwritten, assuming it is a newline; an empty read writes `cmd[-1]` | a read of zero characters (end of input with nothing read) | only a trailing newline is removed | high (not executed) | Shell.EmptyReadFaults | Shell.ReadCmdChecked |
