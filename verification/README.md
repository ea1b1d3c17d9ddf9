# Verified model of an OS teaching lab

The repository is a small 32-bit kernel with user programs, a C library and image
builders. Much of it is left for students to write; this project models the parts that are
finished and proves what they are for.

| part | modules |
|---|---|
| user heap: `malloc`, `free`, `morecore` | `FreeList`, `HeapSpec`, `Heap` |
| kernel queues over one pool of nodes | `Queues`, `ListPool` |
| shell: tokens, parser, NUL termination | `ShellGrammar`, `ShellFiles`, `ShellLexer`, `Shell` |
| grep: pattern matcher and line buffer | `Regex`, `Grep` |
| numbers and text: `strtol`, `strtoul`, `utoa`, `itoa`, `vsprintf` | `StrToNum`, `NumToStr`, `NumFormat`, `Addresses`, `Printf` |
| `rand` | `Congruential`, `Rand` |
| disk, block cache, inodes, `mkfs` | `Disk`, `BlockCache`, `Words`, `Inodes`, `Mkfs` |
| user image and the simple file system | `UserImage`, `EasyFs` |
| paths and reference counts | `Fields`, `PathWalk`, `OpenInodes` |
| producers and consumers | `BoundedBuffer`, `Progress` |
| serial line editor, `strtok` | `Serial`, `StrTok` |
| shared arithmetic and containers | `Divisibility`, `Counting`, `Strings`, `Options` |

Code that changes memory is modelled as classes and methods over arrays with the loops and
assignments of the source; each is proved against functions on values, and the theorems are
about those functions. `dafny verify dfyconfig.toml` checks everything.

## How the parts are modelled

- **Heap.** Memory is an array of header units and addresses count units of 8 bytes. The
  answer of `sbrk` is the parameter `grant`: nothing, or fresh memory above all earlier
  memory. `HeapSpec.State` is the abstract heap; `HeapSpec.Good` says that the free list is
  one address-ordered cycle through `base` with blocks never adjacent, and that free blocks
  and blocks in use split the units obtained exactly. The strongest consequence is that the
  free list is a function of what is in use: it does not depend on the history.
- **Lists.** Nodes and heads are cells of one memory, named by their place. The proof goes
  from `prev` and `next` links to a family of sequences, and from there to whole runs; a client
  keeps the nodes it was given.
- **Shell.** The parser works on characters in a buffer. It is proved equal to a parser on
  tokens, which in turn accepts exactly the sentences of a grammar and gives them their
  meaning. Words are positions in the buffer; the same parser over strings gives the
  round trip from printed commands. `ShellFiles` says what the redirections of a command do to
  files when `runcmd` opens and seeks them.
- **grep.** `Grep.Wanted` is the text that should be written: the newline-terminated lines that
  match, however long they are and with NULs or without. The loop is specified for every input
  without precondition: output stops at the first line that does not fit the buffer or has a
  NUL before its newline. The loop delivers exactly the wanted lines if and only if no line
  from there on is wanted; two real inputs show lines that are lost.
- **Numbers.** Arithmetic is on 32 bits, wrap-around written out. `NumFormat` is the function
  `number`; `Printf` is the loop over format strings, parsed to a list of directives.
- **rand.** The state has period 2^64. The numbers a caller sees have period exactly 2^63,
  because the mask drops the top bit of the state.
- **Block cache.** The disk behind the cache, seen as a plain array of blocks, is the whole
  specification: a run of reads, writes and clears answers as that array would, and leaves
  the same disk.
- **Images.** `kernel/src/fs.c` holds two file systems, a simple one for early labs (`EasyFs`)
  and a full one (`Inodes`, `OpenInodes`). `UserImage.Image` is the image of a list of files;
  reading it back is proved for any part of any file. For the full file system, `mkfs` and kernel are proved to take
  the same bytes for an inode, and the kernel to find the super block and the inode kinds
  that `mkfs` wrote.
- **Paths.** The disk is a tree of directories that a walk only reads; `iget` and `ilookup`,
  which have no body in the source, follow their comments there.
- **Semaphores.** `P` and `V` follow the comments in `kernel/src/sem.c`; numbers of
  producers and consumers and the size of the buffer are arbitrary, and so is the
  interleaving. Under every infinite schedule that picks each process again and again nobody
  starves: waiting lists are first come, first served.
- **Serial line.** What arrives at one interrupt is a batch of characters. A ring overwritten
  by more than 256 stored characters is modelled too: the condition under which typing a
  character still does what the reference editor does is exact.

Where comments and code differ the code is followed: `strtol` skips only blank, tab and
newline of the white space; after `0x` without a digit it reports the very start as the end of
the number, not the place behind the 0. A negative precision taken from the arguments of
`vsprintf` counts as 0. A request to `malloc` so large that its bytes, rounded up, do not fit
the int passed to `sbrk` makes `sbrk` move by the wrong amount; `HeapSpec.SbrkExact` says for
which requests.

## Model

| member | source | states |
|---|---|---|
| HeapSpec.UnitsSuffice | user/ulib/stdlib.c:79 | the units computed hold the request if and only if rounding up does not wrap around in 32 bits |
| HeapSpec.UnitsTight | user/ulib/stdlib.c:79 | the units behind the header are the fewest that hold the request |
| HeapSpec.SbrkExact | user/ulib/stdlib.c:62-64 | the heap grows by the units wanted, or by 4096 if they are fewer; sbrk is asked for all their bytes if and only if there are at most 0x0fffffff, else for nothing or less |
| HeapSpec.SizesMissed | user/ulib/stdlib.c:62-79 | request 0xfffffff8 asks sbrk for 0 bytes, and 0xfffffff9 counts as one unit |
| FreeList.UniqueList | user/ulib/stdlib.c:43-52 | coalescing is complete: two separated lists that cover the same units are the same list |
| FreeList.InsertShape | user/ulib/stdlib.c:43-52 | a freed block merged with its neighbours leaves an ordered list of non-adjacent blocks |
| FreeList.InsertCovers | user/ulib/stdlib.c:43-52 | freeing adds exactly the units of the block |
| FreeList.InsertLinked | user/ulib/stdlib.c:43-52 | the two header writes of free leave one cycle through the new list, in all four cases of merging |
| FreeList.CarveShape | user/ulib/stdlib.c:85-92 | cutting or unlinking keeps the list ordered and non-adjacent, and the block handed out touches none of it |
| FreeList.CarveCovers | user/ulib/stdlib.c:85-92 | allocation removes exactly the units handed out, which were free |
| FreeList.FirstFitFits | user/ulib/stdlib.c:84-99 | the search finds a block if and only if one is large enough, and passes over none that fits |
| HeapSpec.FreedGood | user/ulib/stdlib.c:34-54 | free keeps the whole-heap invariant and moves exactly the units of its block |
| HeapSpec.RovingAfterFree | user/ulib/stdlib.c:40-53 | after free the next search starts at the last list entry in front of the block |
| HeapSpec.GrownGood | user/ulib/stdlib.c:56-71 | growth adds exactly the new units to the free list and changes no block in use |
| HeapSpec.TakenGood | user/ulib/stdlib.c:85-95 | taking a block keeps the invariant; the block was in nobody's use |
| HeapSpec.RovingAfterMalloc | user/ulib/stdlib.c:85-94 | the block handed out is the upper end of the free block, and the next search starts at the entry before that one |
| HeapSpec.MallocedGood | user/ulib/stdlib.c:73-100 | malloc fails if and only if nothing fits and sbrk fails; else one block more is in use, and memory grew exactly if nothing fitted before |
| HeapSpec.SearchOver | user/ulib/stdlib.c:96-98 | back at freep nothing fits, and this happens only before growth: morecore is called at most once |
| HeapSpec.HistoryIndependent | user/ulib/stdlib.c:34-100 | two heaps with the same memory and the same blocks in use have the same free list |
| HeapSpec.FreeUndoesMalloc | user/ulib/stdlib.c:34-100 | freeing what malloc just gave restores the free list |
| HeapSpec.NoFragmentation | user/ulib/stdlib.c:34-54 | once all is returned, memory obtained in one piece is one free block |
| HeapSpec.After | user/ulib/stdlib.c:34-100 | the invariant holds after every run of malloc and free calls |
| HeapSpec.RunsAgree | user/ulib/stdlib.c:34-100 | runs that leave the same blocks in use out of the same memory leave the same free list |
| Heap.Allocator.FindPlace | user/ulib/stdlib.c:40-42 | from any freep the search of free ends at the one entry that the block follows in address order |
| Heap.Allocator.Splice | user/ulib/stdlib.c:43-52 | which two headers change and what they hold, over the four cases of merging |
| Heap.Allocator.Free | user/ulib/stdlib.c:34-54 | memory goes from one represented heap to the heap with the block freed; no unit of a block in use changes |
| Heap.Allocator.MoreCore | user/ulib/stdlib.c:56-71 | nothing changes if sbrk fails; else the heap grows by at least 4096 units |
| Heap.Allocator.Cut | user/ulib/stdlib.c:85-92 | which headers change when an entry is unlinked or its tail cut off |
| Heap.Allocator.Search | user/ulib/stdlib.c:84-99 | the loop ends, with the first fit from freep or after one growth |
| Heap.Allocator.Malloc | user/ulib/stdlib.c:73-100 | heap and answer are those of the specification; no unit of a block in use changes |
| Heap.Allocator.ServeAll | user/ulib/stdlib.c:34-100 | over any legal run of calls memory holds the heap of the specification, the answers are its answers, and no unit of a block in use all the time changes |
| Heap.Allocator.Store | user/ulib/stdlib.c:34-100 | what a program writes to its own block, past the header, does not concern the allocator |
| ListPool.MoveRings | kernel/klib/list.c:9-22 | unlinking a node and linking it elsewhere keeps prev and next inverse round every ring, and moves that entry alone |
| ListPool.MovedPartition | kernel/klib/list.c:43-64 | moving a node keeps the 256 nodes split between the queues and the free list |
| ListPool.FreeNodes | kernel/klib/list.c:43-64 | the free list holds exactly the nodes that no client uses |
| ListPool.Pool.AddNext | kernel/klib/list.c:9-14 | the links after insertion, and that no other link and no value changes |
| ListPool.Pool.RemovePrev | kernel/klib/list.c:16-22 | the links after removal, and that no other link and no value changes |
| ListPool.Pool.InitList | kernel/klib/list.c:24-29 | all 256 nodes form the free list |
| ListPool.Pool.Init | kernel/klib/list.c:31-37 | a head starts an empty queue; the first call sets up the pool; other queues stay |
| ListPool.Pool.IsEmpty | kernel/klib/list.c:39-41 | true exactly for an empty queue |
| ListPool.Pool.Enqueue | kernel/klib/list.c:43-48 | the value becomes the youngest of its queue, other queues keep theirs, the node comes from the pool |
| ListPool.Pool.Dequeue | kernel/klib/list.c:50-58 | the oldest value is returned and leaves, nothing happens to an empty queue, the node goes back |
| ListPool.Pool.Remove | kernel/klib/list.c:60-64 | exactly the given entry leaves its queue, whichever head is passed, and the others keep their order |
| ListPool.Pool.ServeAll | kernel/klib/list.c:31-64 | any run of operations from the start, with any values: heads deliver in memory what the queues of the specification deliver, the rest waits, and a node is free for each value fewer than 256 that waits |
| Queues.FifoStep | kernel/klib/list.c:31-64 | every operation keeps each value accounted for once and each queue in order |
| Queues.RunsAreFifo | kernel/klib/list.c:31-64 | over every run each value enqueued is delivered or waiting at its own queue or was removed, and delivery is oldest first |
| ShellLexer.ToksAreWords | user/src/phase6/sh.c:259-302 | the words of a line are non-empty and end at a blank, an operator or the end |
| ShellLexer.CharClasses | user/src/phase6/sh.c:256-257 | exactly five characters are blanks and seven are operators |
| ShellLexer.WordsSurvive | user/src/phase6/sh.c:442-487 | with NULs behind all words of a command, each reads as its own text |
| ShellLexer.ToksOfText | user/src/phase6/sh.c:259-302 | any layout of tokens, with blanks where two would run together, is read back as these tokens |
| ShellGrammar.ItemsInOrder | user/src/phase6/sh.c:409-440 | words and redirections may be mixed: words in order, later redirections outermost |
| ShellGrammar.LineComplete | user/src/phase6/sh.c:338-440 | every sentence is parsed to what it stands for |
| ShellGrammar.LineSound | user/src/phase6/sh.c:338-440 | whatever is parsed is a sentence followed by the rest, with the command it stands for |
| ShellGrammar.ParserMeetsGrammar | user/src/phase6/sh.c:321-440 | tokens are accepted if and only if they are a sentence, and then mean what the grammar says |
| ShellGrammar.ParsePrinted | user/src/phase6/sh.c:321-440 | the tokens of the parenthesised form of a command give the command back |
| ShellGrammar.ParseAllMap | user/src/phase6/sh.c:321-440 | the parser treats words as opaque: renaming them before or after parsing is the same |
| ShellFiles.RedirectionsMean | user/src/phase6/sh.c:368-391 | a parsed command has exactly the redirections written, in order; < opens standard input for reading at the start and makes no file, > opens standard output on an emptied file, >> behind what the file holds, and both make a missing file |
| ShellFiles.WordsMean | user/src/phase6/sh.c:321-440 | the words of the command are all words written that are no files of redirections, in order |
| ShellFiles.BarMeans | user/src/phase6/sh.c:355-366 | a bar makes a pipe of its two sides |
| ShellFiles.SemicolonMeans | user/src/phase6/sh.c:348-351 | a semicolon makes a list of its two sides |
| ShellFiles.AmpersandMeans | user/src/phase6/sh.c:344-347 | an ampersand makes a command in the background |
| ShellFiles.FileMissing | user/src/phase6/sh.c:376-377 | a redirection without a word behind it is refused for this reason |
| ShellFiles.BracketMissing | user/src/phase6/sh.c:393-407 | an open bracket without its partner is refused for this reason |
| ShellFiles.BracketLeft | user/src/phase6/sh.c:329-333 | a closing bracket too many is left over |
| ShellFiles.BracketMisplaced | user/src/phase6/sh.c:409-440 | an open bracket behind a word is a syntax error |
| ShellFiles.TenWords | user/src/phase6/sh.c:409-440 | ten words or more are too many for a command |
| Shell.Parser.GetToken | user/src/phase6/sh.c:259-302 | kind and extent of the next token, and the cursor in front of the one behind |
| Shell.Parser.PeekFor | user/src/phase6/sh.c:304-314 | whether the next token starts with one of the characters; only blanks are skipped |
| Shell.Parser.Redirs | user/src/phase6/sh.c:368-391 | the redirections read, in order, or the error for a missing file |
| Shell.Parser.Block | user/src/phase6/sh.c:393-407 | a bracketed line with redirections, or the error for a missing bracket |
| Shell.Parser.ExecAt | user/src/phase6/sh.c:409-440 | command, rest of the tokens and errors as on tokens |
| Shell.Parser.PipeAt | user/src/phase6/sh.c:355-366 | command, rest of the tokens and errors as on tokens |
| Shell.Parser.ParseLineAt | user/src/phase6/sh.c:338-353 | command, rest of the tokens and errors as on tokens; the recursion ends |
| Shell.Parser.NulTerminate | user/src/phase6/sh.c:442-487 | NUL at exactly the ends of the words of the command, nothing else changes |
| Shell.Parser.ParseCmd | user/src/phase6/sh.c:321-336 | on any line: the error, or the command, with every word of it readable as a C string equal to its slice of the line |
| Shell.SentenceParsed | user/src/phase6/sh.c:259-440 | however a sentence is laid out in characters, its command is built |
| Shell.OnlySentencesParsed | user/src/phase6/sh.c:321-440 | only lines that are sentences are accepted |
| Shell.ParsePrint | user/src/phase6/sh.c:321-440 | parsing the printed form of any command consumes it all and rebuilds the command |
| Regex.MatchHere | user/src/phase6/grep.c:80-92 | true if and only if some prefix of the text is a word of the pattern |
| Regex.MatchStar | user/src/phase6/grep.c:94-102 | true if and only if some number of repetitions is followed by a match of the rest |
| Regex.Match | user/src/phase6/grep.c:68-78 | true if and only if some stretch of the text is a word of the pattern, at the start after a caret |
| Regex.PlainMatches | user/src/phase6/grep.c:68-92 | a pattern without special characters matches exactly the texts that contain it |
| Regex.DotMatches | user/src/phase6/grep.c:80-92 | between caret and dollar a dot matches exactly one character, whichever |
| Regex.StarMatches | user/src/phase6/grep.c:80-102 | between caret and dollar a character and a star match exactly the texts of that character alone, a dot and a star every text |
| Grep.FindNewlineMeaning | user/src/phase6/grep.c:19 | strchr finds the first newline unless a NUL comes first |
| Grep.Stream.Read | user/src/phase6/grep.c:15 | a read delivers the next bytes in pieces of any size |
| Grep.WriteLines | user/src/phase6/grep.c:18-26 | the complete lines in the buffer are written if wanted, and what is left has none that strchr finds |
| Grep.Grep | user/src/phase6/grep.c:8-32 | the output depends on the bytes alone, not on how the reads cut them |
| Grep.OutputBeforeCut | user/src/phase6/grep.c:8-32 | the output, and what is wanted from the first unfit line on, are together all that is wanted |
| Grep.WantedLines | user/src/phase6/grep.c:19-24 | of any lines put together, what is wanted is the text of those that match, each whole and with its newline, and nothing of an unfinished line |
| Grep.CompleteExactlyIf | user/src/phase6/grep.c:8-32 | all matching lines are written if and only if none is found from the first line on that is too long or has a NUL |
| Grep.NothingLeftOut | user/src/phase6/grep.c:8-32 | if every line fits, exactly the matching lines are written, in order and byte for byte |
| Grep.EitherJudgement | user/src/phase6/grep.c:19-21 | whether a line with a NUL is judged up to it or as a whole plays no part in the output |
| Grep.LostLines | user/src/phase6/grep.c:8-32 | grep foo loses the line foo behind a line with a NUL, and behind one of 1024 characters |
| StrToNum.CutoffExact | lib/src/stdlib/strtol.c:56-76 | the test against cutoff and cutlim is true exactly when one more digit exceeds the limit |
| StrToNum.Prefix | lib/src/stdlib/strtol.c:22-37 | where the digits start and in which base, after blanks, sign and 0x |
| StrToNum.Accumulate | lib/src/stdlib/strtol.c:59-76 | the exact value of the digit run, or the news that it exceeds the limit |
| StrToNum.StrToL | lib/src/stdlib/strtol.c:3-84 | the signed value of the number clamped to the range of long, where it ends, and 0 for other bases |
| StrToNum.StrToUL | lib/src/stdlib/strtoul.c:3-59 | the value, negated modulo 2^32 after a minus sign, or ULONG_MAX if it does not fit |
| StrToNum.Saturation | lib/src/stdlib/strtol.c:78-81 | beyond the range of long the answer is its nearer end, in it the number itself; unsigned, ULONG_MAX beyond the range and the negation modulo 2^32 in it |
| StrToNum.BaseFromText | lib/src/stdlib/strtol.c:30-37 | with base 0 the number is read in base 16 after 0x, in base 8 after 0 and in base 10 else |
| StrToNum.StopsAtLongest | lib/src/stdlib/strtol.c:22-83 | endptr is what ISO C11 wants if and only if there is no 0x without a hexadecimal digit and no number behind a vertical tab, form feed or carriage return |
| StrToNum.StandardMissed | lib/src/stdlib/strtol.c:22-83 | both happen: for 0x alone, and for 12 behind a vertical tab |
| NumToStr.WriteLow | lib/src/stdlib/utoa.c:20-28 | the digits, the lowest first, and nothing else written |
| NumToStr.Reverse | lib/src/stdlib/utoa.c:30-36 | the range is reversed in place, nothing else changes |
| NumToStr.UToA | lib/src/stdlib/utoa.c:3-39 | the digits of the value and a NUL, or an empty string for other bases |
| NumToStr.IToA | lib/src/stdlib/itoa.c:3-30 | a sign in base 10 only, the digits of the magnitude or of the word, and a NUL |
| NumToStr.DigitsValue | lib/src/stdlib/utoa.c:20-28 | the digits written are digits of the base and stand for the value |
| NumToStr.DigitTables | lib/src/stdio.c:15-16 | the digits are those of the two tables, and have the values of their places |
| NumToStr.UToARoundTrip | lib/src/stdlib/utoa.c:3-39 | strtoul undoes utoa for every value and base and stops at the NUL |
| NumToStr.IToARoundTrip | lib/src/stdlib/itoa.c:3-30 | strtol undoes itoa in base 10 for all ints, the least included |
| NumFormat.LowTailDigits | lib/src/stdio.c:71-82 | at most 32 of the 66 places of the digit buffer are used |
| NumFormat.Number | lib/src/stdio.c:27-115 | the text is lead, sign, prefix, zeros, digits and trail as the flags say, and nothing for other bases |
| NumFormat.RenderLength | lib/src/stdio.c:27-115 | the length is the larger of the width and sign, prefix and digits or precision together |
| NumFormat.Layout | lib/src/stdio.c:27-115 | field by field: blanks or zeros fill the width on the side asked for, sign and prefix are those of the flags, the digits stand for the value in the case asked for, with zeros up to the precision and none too many |
| NumFormat.ReadPieces | lib/src/stdlib/strtol.c:22-83 | blanks, a sign, 0x, digits and anything that ends a number are read as the value of the digits |
| NumFormat.ReadBack | lib/src/stdio.c:27-115 | strtol or strtoul gives the number back for every base, width, precision and set of flags |
| Addresses.EAddr | lib/src/stdio.c:117-144 | six bytes in two hexadecimal digits each, between colons |
| Addresses.IAddr | lib/src/stdio.c:146-189 | four bytes in decimal without leading zeros, between dots |
| Addresses.AddressRead | lib/src/stdio.c:117-189 | taken apart at its separators and read as numbers, an address gives its bytes back |
| Printf.SkipAtoi | lib/src/stdio.c:18-25 | the value of the digit run, and its end |
| Printf.ParseText | lib/src/stdio.c:208-275 | the text of any list of pieces, with any flags, widths, precisions and qualifiers, is parsed to these pieces |
| Printf.VSPrintf | lib/src/stdio.c:191-378 | the loop prints, for any format and fitting arguments, what the pieces of the format call for |
| Printf.PrintsPieces | lib/src/stdio.c:191-378 | a format put together from pieces prints what its pieces print, in order |
| Printf.StringDirective | lib/src/stdio.c:291-303 | %s prints the string up to its NUL, cut to the precision, at the side of the field that the flags say, and the rest of the field is blanks |
| Printf.CharDirective | lib/src/stdio.c:282-289 | %c prints the low byte of its argument in a field of blanks |
| Printf.PointerDirective | lib/src/stdio.c:305-317 | %p prints base 16, in eight places filled with zeros if no width is given |
| Printf.PointerReadsBack | lib/src/stdio.c:305-317 | plain %p prints eight characters that read as the pointer in base 16 |
| Printf.AddressDirective | lib/src/stdio.c:319-335 | %la prints six bytes and %a four, in a field of blanks |
| Printf.OtherDirective | lib/src/stdio.c:356-363 | %% prints one percent sign, any other letter itself behind one, and no argument is used |
| Printf.IntegerDirective | lib/src/stdio.c:337-373 | base, sign and case of the six integer directives, laid out as flags, width and precision say |
| Printf.StarWidth | lib/src/stdio.c:242-251 | a width from the arguments acts as the same width in the format, a negative one as its magnitude with a minus flag |
| Printf.StarPrecision | lib/src/stdio.c:253-267 | a precision from the arguments acts as the same in the format, a negative or missing number as 0 |
| Printf.DirectiveReadsBack | lib/src/stdio.c:336-373 | what an integer directive prints, strtol or strtoul gives back, whatever its flags, width and precision |
| Rand.Generator.SRand | lib/src/stdlib/rand.c:5-7 | the run starts at the seed |
| Rand.Generator.Rand | lib/src/stdlib/rand.c:9-12 | one step of the state, and 31 of its bits |
| Rand.Generator.Draw | lib/src/stdlib/rand.c:3-12 | the k-th number drawn is the output of the k-th state |
| Congruential.GeometricTwos | lib/src/stdlib/rand.c:10 | the sum 1 + a + ... + a^(n-1) has exactly as many factors of two as n, for a = 1 modulo 4 |
| Congruential.FullPeriod | lib/src/stdlib/rand.c:10 | two states of a run coincide if and only if the modulus divides their distance |
| Rand.StatePeriod | lib/src/stdlib/rand.c:3-12 | from every seed the state has period exactly 2^64 |
| Rand.StateVisited | lib/src/stdlib/rand.c:3-12 | from every state each of the 2^64 states is reached |
| Rand.VisiblePeriod | lib/src/stdlib/rand.c:9-12 | the numbers delivered have period exactly 2^63 |
| Rand.OutputBits | lib/src/stdlib/rand.c:9-12 | the number delivered is bits 32 to 62 of the state |
| Disk.Drive.ReadSector | kernel/src/disk.c:8-20 | a sector arrives at its place in memory, nothing else changes |
| Disk.Drive.WriteSector | kernel/src/disk.c:22-34 | one sector of the disk changes, to the bytes in memory |
| Disk.Drive.CopyFrom | kernel/src/disk.c:36-42 | memory holds the bytes of consecutive sectors, nothing else changes |
| Disk.Drive.CopyTo | kernel/src/disk.c:44-50 | consecutive sectors hold the bytes of memory, no other sector changes |
| BlockCache.WrittenThrough | kernel/src/disk.c:78-90 | a slot changed in memory and on disk changes one block and leaves all slots right |
| BlockCache.Cache.GetCache | kernel/src/disk.c:61-69 | the slot holds the block as it is on disk, and the disk stays |
| BlockCache.Cache.BRead | kernel/src/disk.c:71-76 | the bytes asked for, and an unchanged disk |
| BlockCache.Cache.BWrite | kernel/src/disk.c:78-84 | the bytes of one block change as asked, no other byte of the disk does |
| BlockCache.Cache.BZero | kernel/src/disk.c:86-90 | one block becomes zeros, no other byte of the disk changes |
| BlockCache.Cache.ServeAll | kernel/src/disk.c:61-90 | every run of accesses answers and ends as a plain array of blocks would |
| BlockCache.ReadsLastPut | kernel/src/disk.c:61-90 | each byte read in a run is the one last written there, zero if the block was cleared since, or what the disk held at the start |
| Words.DecodeEncode | kernel/src/fs.c:128-134 | words written to memory are read back |
| Words.EncodeDecode | kernel/src/fs.c:128-134 | and bytes read as words are written back |
| Words.LowByteFirst | kernel/src/fs.c:128-134 | the four bytes of a word lie in memory with the lowest first |
| Inodes.InodeRoundTrip | kernel/src/fs.c:128-134 | an inode and its 64 bytes determine each other |
| Inodes.InodeLayout | kernel/src/fs.c:129-134 | kind, device, size and the 13 addresses are the words of an inode, in this order |
| Inodes.SuperLayout | kernel/src/fs.c:121-126 | bitmap, istart, inum and root are the words of the super block, in this order |
| Inodes.InodesInRow | kernel/src/fs.c:150-151 | block and offset of inodes put them in a row without gaps or overlap |
| Inodes.FileSystem.InitFs | kernel/src/fs.c:146-148 | the super block in memory is that of block 32 |
| Inodes.FileSystem.DIRead | kernel/src/fs.c:153-155 | the inode that the disk holds, and an unchanged disk |
| Inodes.FileSystem.DIWrite | kernel/src/fs.c:157-159 | that inode is the one written, all others and every other byte stay |
| Inodes.FileSystem.DIFree | kernel/src/fs.c:174-178 | that inode becomes zeros, all others stay |
| Mkfs.SameInode | utils/mkfs.c:90-99 | for any image, the bytes mkfs takes for an inode are those the kernel takes |
| Mkfs.InodesApart | utils/mkfs.c:36-42 | all inodes lie between the bitmap and the data blocks |
| Mkfs.Builder.InitDisk | utils/mkfs.c:128-138 | super block, root inode, and a bitmap with exactly the first 64 blocks marked |
| Mkfs.Builder.IAlloc | utils/mkfs.c:156-163 | a new inode number with its kind in the image, other inodes, bitmap and super block as before, or failure exactly when all are taken |
| Mkfs.Builder.BAlloc | utils/mkfs.c:148-154 | a block that was not marked and is now; the bitmap marks exactly the blocks given out |
| Mkfs.KernelFindsSuper | utils/mkfs.c:128-138 | the kernel reads the super block that mkfs wrote |
| Mkfs.KernelFindsInode | utils/mkfs.c:156-163 | the kernel reads every inode with the kind mkfs gave it |
| UserImage.TableRoundTrip | utils/genuser.c:12-18 | a table of inodes written to a sector is read back |
| UserImage.EntryLayout | utils/genuser.c:12-16 | first sector, length and name lie in an inode in this order |
| UserImage.SectorsInside | utils/genuser.c:30-34 | each file lies behind the table and inside the image |
| UserImage.SectorsApart | utils/genuser.c:30-34 | no two files share a sector |
| UserImage.Builder.CopyFile | utils/genuser.c:37-43 | the bytes of the file and zeros to the end of the sector are appended |
| UserImage.Builder.AddFile | utils/genuser.c:24-45 | entry and data of the next file, or failure exactly for a full table or a long name |
| UserImage.Builder.WriteInode | utils/genuser.c:47-50 | the table replaces the first sector |
| UserImage.Build | utils/genuser.c:52-63 | the image of the files, or failure exactly without files, with too many, or with a name too long |
| EasyFs.FilePlaced | utils/genuser.c:24-63 | on a disk with the image at sector 256, each inode leads to the bytes of its file |
| EasyFs.FileSystem.InitFs | kernel/src/fs.c:29-37 | the 16 inodes are those of sector 256, devices stay |
| EasyFs.FileSystem.IAddDev | kernel/src/fs.c:67-74 | one device inode gets its name and number, all others stay |
| EasyFs.FileSystem.IOpen | kernel/src/fs.c:39-47 | the first valid inode with the name |
| EasyFs.FindFile | kernel/src/fs.c:39-47 | every stored file is found by its name, whatever devices there are |
| EasyFs.FileSystem.IRead | kernel/src/fs.c:49-65 | exactly the bytes from off to the smaller of off + len and the length, their number, and nothing else in the buffer |
| EasyFs.Boot | kernel/src/fs.c:29-37 | after init_fs the table is that of the image |
| EasyFs.ReadFile | kernel/src/fs.c:29-65 | any part of any file that genuser stored is read back |
| Fields.ElementsHead | kernel/src/fs.c:230-247 | delimiters, an element, delimiters and a rest: the element comes first among those of the text |
| PathWalk.SkipElem | kernel/src/fs.c:230-247 | name holds the C string of the first characters of the first non-empty element, as many as it has but at most 27, and the elements of the rest remain; at the end of the path exactly if there are no more |
| PathWalk.Names | kernel/src/fs.c:302-321 | skipelem called until it finds nothing gives all elements of the path, in order, each whole up to 27 characters and cut there beyond |
| OpenInodes.InodeTable.IGet | kernel/src/fs.c:203-209 | one more reference to that inode and to no other |
| OpenInodes.InodeTable.IDup | kernel/src/fs.c:376-380 | one more reference to that inode and to no other |
| OpenInodes.InodeTable.IClose | kernel/src/fs.c:382-389 | one reference less; a removed inode is freed exactly with its last reference |
| OpenInodes.InodeTable.IOpenParent | kernel/src/fs.c:291-325 | the walk ends; on success the parent directory gains one reference and name holds the last element, the whole of it up to 27 characters; on failure no count changes; nothing is freed |
| OpenInodes.ParentIsReach | kernel/src/fs.c:302-322 | the directory found is where all elements but the last lead, and the walk fails exactly if they lead to none |
| BoundedBuffer.StepGood | user/src/phase4/producer.c:23-45 | every step of every process keeps the invariant |
| BoundedBuffer.SlotsConserved | user/src/phase4/producer.c:23-45 | free slots, filled slots and claims add up to the size in every reachable state, and items stay between 0 and the size |
| BoundedBuffer.MutualExclusion | user/src/phase4/producer.c:27-30 | never two processes between P(mutex) and V(mutex) |
| BoundedBuffer.NoDeadlock | user/src/phase4/producer.c:23-45 | in every reachable state some process can step |
| Progress.Sleeping | kernel/src/sem.c:10-18 | while a process sleeps its place in the list never grows, and each V of its semaphore wakes it or moves it up |
| Progress.EverySleeperWoken | user/src/phase4/producer.c:23-45 | under every schedule that picks each process again and again, whoever sleeps at any time is woken |
| Progress.NobodyStarves | user/src/phase4/producer.c:23-45 | under every such schedule each process comes to put or take an item again and again |
| Progress.EveryoneGoesOn | user/src/phase4/producer.c:23-45 | whatever has happened so far, the run can go on so that a given process comes to put or take an item |
| Serial.KeysEdit | kernel/src/serial.c:60-86 | what the editor keeps is what no later erasure of the same line takes away |
| Serial.CommittedStays | kernel/src/serial.c:38-51 | keys never change committed characters, and commit whole lines |
| Serial.EnterCommits | kernel/src/serial.c:60-86 | printable characters that fit and then carriage return or newline: the line typed is committed with them and one newline, the new line is empty, and the screen shows the characters and a newline |
| Serial.EraseKeys | kernel/src/serial.c:71-76 | backspace and delete take the last character of the line, if there is one, and wipe it from the screen |
| Serial.ControlsIgnored | kernel/src/serial.c:60-86 | every other character that is not printable changes neither text nor screen |
| Serial.ReadersGetText | kernel/src/serial.c:35-86 | reads between the keys get the committed text from its start, each character once and in order, and change nothing of what the keys commit |
| Serial.Console.PushBack | kernel/src/serial.c:38-44 | the character is typed and nothing else if and only if there is room or the character written over is the same |
| Serial.LineOverrun | kernel/src/serial.c:36-44 | 256 characters and one more: the last one stands where the first should |
| Serial.Console.PopBack | kernel/src/serial.c:46-51 | the last character of the uncommitted line, if there is one |
| Serial.Console.PopFront | kernel/src/serial.c:53-58 | the oldest committed character, if there is one |
| Serial.Console.Handle | kernel/src/serial.c:60-86 | head, clapboard and tail stay ordered always; with room, text and screen are those of the reference editor |
| Serial.Console.Serve | kernel/src/serial.c:35-86 | every interleaving of input and reads delivers what the reference editor would |
| StrTok.Tokenizer.Next | lib/src/string/strtok.c:3-52 | the next element, ended in place by a NUL, and a position from which the others are found; only that NUL is written |
| StrTok.Tokenizer.Arguments | user/src/phase3/sh1.c:16-19 | the loop of the shell puts in argv, as C strings in place, the elements of the line in order, as many as argv holds |

## Left out

- Bodies marked TODO in the source (processes, paging, semaphores, most of the full file
  system): there is no code to model. `P`, `V`, `iget` and `ilookup` follow their comments.
- Printf.VSPrintf: arguments that do not fit the format, for which C defines nothing; the text is
  a value, not a buffer that could be too short.
- HeapSpec.MallocedGood: sbrk answering a request for more than 0x0fffffff units, for which it is
  asked for too few bytes (`HeapSpec.SbrkExact`): the units registered are then not obtained.
- HeapSpec.After: the same; and so for `Searching` and the lemmas about it.
- Heap.Allocator.MoreCore: the same.
- Heap.Allocator.Search: the same.
- Heap.Allocator.Malloc: the same.
- Heap.Allocator.ServeAll: the same.
- OpenInodes.InodeTable.IClose: freeing the blocks and the inode of a removed file is an entry in
  a log of inode numbers; what `itrunc` and `difree` do to the disk is not part of it.
- NumFormat.Number: the text is a value, not written through a pointer, and overflow of int in
  width and precision near their extremes is not modelled.
- Serial.Console.PushBack: overflow of the int positions after 2^31 characters is not modelled.
- Serial.Console.PopFront: `getchar` and `serial_read`, which spin until something arrives, are not modelled.
- EasyFs.FileSystem.IRead: the counter is unbounded; files on this disk are too short for the
  int of the source to overflow.
- Disk.Drive.ReadSector: the port commands and the wait loops are not part of this model.
- BlockCache.Cache.BRead: the bytes are returned as a value, not copied to a pointer of the caller.
- Shell.Parser.ExecAt: the command tree is a value; filling `argv` through a pointer to the
  inner node is adding a word to it.
- ListPool.Pool.Remove: nodes and heads are cells of one memory, not separate objects.
- UserImage.Build: `basename` and failing file operations; names are given without directories.
- OpenInodes.InodeTable.IOpenParent: the content of directories is a map that does not change
  during a walk; what happens after `iget` finds no free slot and aborts is not modelled.
- Mkfs.Builder.InitDisk: the two directory entries of the root, because the function that
  appends them has no body.
- ShellFiles.RedirectionsMean: `runcmd` closing the old file and ending when a file cannot be
  opened. `open` and `lseek` follow `lib/include/lib.h` and the comments in `kernel/src/file.c`,
  because what empties a file has no body there.
- The rest of `runcmd`, system calls, boot code, traps and descriptor tables.
- `head`, `xargs` and the simple string functions.
