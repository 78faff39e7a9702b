# System monitor samplers

A Dafny model of the four sampling functions of a small Linux system
monitor (`main.c`). Each sampler reads one kernel statistics source and
reduces it to a single figure:

- `cpu_util` takes the first line of the CPU statistics source, reads seven
  tick counters after the first blank, and reports the busy share of the
  ticks elapsed since the previous call. The previous vector and its sum are
  kept in `static unsigned` variables.
- `calculate_memory_utilization` scans the memory statistics source for
  `MemTotal`, `MemFree` and `Active` lines. It reports the used share of the
  total, or -1 when the total is missing.
- `calculate_network_utilization` scans the network device source for lines
  that mention `enp0s1`. It reads the 10th and 18th tokens as received and
  transmitted bytes, and reports the KiB moved since the previous call. The
  previous values are kept in `static unsigned` variables.
- `calculate_io_utilization` scans the disk statistics source for lines that
  mention `sda`. It reads sectors read and sectors written, and reports half
  their sum.

The model is split into these modules:

- `Machine`: 32- and 64-bit unsigned arithmetic.
- `Text`: `strstr` and decimal numerals.
- `Scan`: a model of `sscanf` for the directives these formats use. It covers
  white space, literal characters, `%*s`, `%*u`, `%u` and `%lu`. Conversion
  follows glibc's `strtoul`: an optional sign, saturation at `ULONG_MAX`,
  negation modulo 2^64, and `%u` keeping the low 32 bits.
- `Lines`: the read loop as a fold.
- `Capture`: the loop shared by the network and disk samplers.
- `Cpu`, `Memory`, `Network` and `Disk`: one module per sampler.

A source is `Option<seq<string>>`, one string per line, and `None` means
`fopen` failed. The static state of a sampler is an explicit argument and
an explicit result.

## Model

| member | source | states |
|---|---|---|
| `Cpu.ParseTicks` | main.c:49-60 | a line without a blank yields no counters |
| `Cpu.RenderedLineParses` | main.c:49-58 | a label, a gap of white space starting with a blank, and seven decimal counters separated by runs of white space parse back to exactly those counters |
| `Cpu.ShortLineFails` | main.c:49-60 | a line that ends, apart from white space, after fewer than seven counters yields no counters, so the call returns 0 |
| `Cpu.WrapSumIsSumModulo` | main.c:61-65 | the `unsigned` accumulation loop yields the exact sum reduced modulo 2^32 |
| `Cpu.TickSum` | main.c:61-65 | the sum computed over a vector is its exact sum modulo 2^32 |
| `Cpu.Sample` | main.c:61-71 | the state becomes the new vector and its wrapped sum; the result is a division by zero exactly when the wrapped sum equals the retained sum |
| `Cpu.CpuUtil` | main.c:30-73 | a line that does not parse returns 0 and leaves the state untouched; a parsed line replaces the state, keeps the retained sum consistent with the retained vector, and divides by zero exactly when the wrapped sum is unchanged |
| `Cpu.SampleFormula` | main.c:66 | the figure is (1 - idle delta / total delta) * 100, both deltas taken modulo 2^32 |
| `Cpu.CpuResultFormula` | main.c:49-71 | the same formula for a parsed line, in terms of the exact counters |
| `Cpu.FirstSample` | main.c:33-66 | the first call is measured against zeroed static storage |
| `Cpu.SameLineTwice` | main.c:61-71 | the same line fed twice leaves no ticks elapsed, and the second call divides zero by zero |
| `Cpu.SumGrowth` | main.c:61-66 | when no counter decreases, the total grows by at least the growth of any one counter |
| `Cpu.CpuUtilBounded` | main.c:66 | counters that only grew, with a sum that fits in 32 bits, give a figure between 0 and 100 |
| `Cpu.SampleBounded` | main.c:61-66 | the same bound for one sample |
| `Cpu.TwentyFivePercent` | main.c:30-73 | two rendered lines 80 ticks apart, 60 of them idle, give 25 percent on the second call |
| `Memory.UpdateLine` | main.c:86-93 | a line assigns only the variable of the first key it contains, and only when its second token converts |
| `Memory.MemFoldIsLastReading` | main.c:79-94 | after the loop each variable holds the value of the last line that assigns it, or 0 |
| `Memory.Figure` | main.c:98-103 | a zero total gives -1; otherwise the figure is the used share, with `total - free` wrapping modulo 2^64 |
| `Memory.MemoryUtilization` | main.c:75-104 | an unopenable source gives -1; otherwise the figure of the last total and the last free amount read |
| `Memory.LastReadingSkips` | main.c:86-94 | a line that does not assign a variable can be removed without changing that variable |
| `Memory.ActiveNeverMatters` | main.c:91-103 | a line without `MemTotal` or `MemFree` never changes the figure |
| `Memory.LastLineWins` | main.c:86-94 | among the lines that assign a variable, the last one decides it |
| `Memory.LastReadingNone` | main.c:79-94 | a variable no line assigns stays 0 |
| `Memory.LastReadingAfter` | main.c:86-94 | trailing lines that do not assign a variable leave it unchanged |
| `Memory.MemoryBounds` | main.c:98-103 | a figure between 0 and 100 when free does not exceed total; above 100 when it does |
| `Memory.FigureBounds` | main.c:98-103 | the same bounds for a total and a free amount |
| `Memory.RenderedKbLine` | main.c:88 | a word, a run of white space of any length and a decimal numeral assign that number |
| `Memory.MemTotalLine` | main.c:87-88 | a `MemTotal:` line, with the number padded by any run of white space, assigns the total |
| `Memory.MemFreeLine` | main.c:89-90 | a `MemFree:` line, with the number padded by any run of white space, assigns the free amount and not the total |
| `Memory.SixtyPercent` | main.c:75-104 | 1000 kB total and 400 kB free give 60 percent |
| `Capture.Step` | main.c:119-122 | a line without the key leaves both locals; a line with it overwrites exactly the conversions `sscanf` reaches |
| `Capture.LoopIsLastAssigned` | main.c:119-123 | after the loop each local holds the value of the last line that assigns it, or 0 |
| `Capture.NoKeyLine` | main.c:110-123 | without a line containing the key both locals stay 0 |
| `Capture.LastFullLineWins` | main.c:145-149 | the last line that assigns both locals decides both when no later line contains the key |
| `Scan.ScanfSpaced` | main.c:50-58 | a line of tokens separated by runs of white space, each fitting its field of the format, assigns every conversion, in order |
| `Scan.ScanfSpacedPrefix` | main.c:121 | when the line ends before a field, the conversions before it are assigned and none after, whatever white space separates the tokens |
| `Scan.ScanfGlued` | main.c:147 | a literal field followed directly by a numeral lets the next field read that numeral |
| `Network.Truncate32` | main.c:126-127 | storing an `unsigned long` in an `unsigned` keeps it below 2^32 and changes it by a multiple of 2^32 |
| `Network.Advance` | main.c:125-127 | the figure is the wrapped 64-bit sum of both deltas in KiB, and the new state is the counters truncated to 32 bits |
| `Network.NetworkUtilization` | main.c:106-132 | an unopenable source gives -1 with the state untouched; otherwise the step from the last rx and tx read |
| `Network.UnchangedBelow32` | main.c:125-127 | with counters below 2^32, a second call on the same source reports 0 and keeps the state |
| `Network.SecondCallZeroIff` | main.c:110-127 | a second call on the same source reports 0 exactly when the parts of rx and tx above 32 bits add up to a multiple of 2^32 |
| `Network.AdvanceTwiceZeroIff` | main.c:125-127 | the same equivalence for the counters |
| `Network.NetFieldsRead` | main.c:121 | eighteen tokens assign the 10th to rx and the 18th to tx |
| `Network.RenderedNetLine` | main.c:120-121 | a line naming the interface with seventeen counters, separated by runs of white space, assigns the 9th counter to rx and the 17th to tx |
| `Network.SixteenCounterLine` | main.c:119-123 | on a line with sixteen counters in padded columns (runs of white space between tokens) rx is assigned and tx is not |
| `Network.OneLineSource` | main.c:119-123 | a source of one rendered line yields that line's rx and tx |
| `Network.TwoKibThenZero` | main.c:106-132 | 2048 bytes received from the zeroed start give 2 KiB, then 0 |
| `Network.TruncatedRetention` | main.c:111-127 | rx at 2^32 is retained as 0, so the second call reports 4 GiB instead of 0 |
| `Network.NetworkUtilizationWide` | main.c:106-132 | the corrected sampler with 64-bit retained values |
| `Network.WideUnchangedIsZero` | main.c:125-127 | with 64-bit retained values, a second call on an unchanged source always reports 0 |
| `Network.WideAgreesBelow32` | main.c:125-127 | from the same retained values both variants report the same figure; when the counters fit in 32 bits they also retain the same values, so they agree on every later call too |
| `Disk.HalfSum` | main.c:153 | half the sum, taken in `unsigned long` so that it wraps before halving; never negative |
| `Disk.IoUtilization` | main.c:134-154 | an unopenable source gives -1; otherwise half the sum of the last sectors read and written |
| `Disk.NoDeviceLine` | main.c:138-153 | with no line containing `sda` the figure is 0 |
| `Disk.LastDiskLineWins` | main.c:145-153 | the last line that assigns both counters decides the figure when no later line mentions `sda` |
| `Disk.StatFieldsRead` | main.c:147 | seven numerals assign the 3rd to sectors read and the 7th to sectors written |
| `Disk.WholeDiskLine` | main.c:146-147 | a whole-disk line, its tokens separated by runs of white space, assigns the 3rd counter after the name and the 7th |
| `Disk.PartitionLine` | main.c:146-147 | a partition line (`sda1`), with any runs of white space between tokens, is also scanned; the partition number is read as the first counter, so every counter shifts by one place |
| `Disk.SeventyFive` | main.c:134-154 | 100 sectors read and 50 written give 75 |
| `Disk.PartitionHidesDisk` | main.c:145-153 | with a partition line after the disk line, the figure comes from the partition's shifted counters whatever the disk's own counters are |
| `Disk.PartitionHidesDiskExample` | main.c:145-153 | a disk with 100 sectors read and 50 written and an idle partition reports 0 instead of 75 |
| `Disk.IoUtilizationWhole` | main.c:145-153 | the corrected sampler selects only lines containing `sda ` |
| `Disk.WholeDiskWins` | main.c:145-153 | with the corrected selection, the disk's own counters decide the figure whatever its partitions hold, given a blank right after the disk's name |

## Left out

- File access: opening, reading and closing are not modelled. A source is
  given as its lines, or as `None` when it cannot be opened.
- Line splitting: `fgets` splits lines longer than 1023 bytes into several
  pieces. Every source line is taken as one string.
- The main loop, the signal handler, the `TRACE` messages and the printing
  of figures are not modelled. `system.h` is not part of this model.
- Floating point: figures are exact reals. IEEE rounding is not modelled.
  When the CPU total delta is zero, C gives -infinity or NaN; the model
  returns the outcome `DivideByZero` instead.
- Network sign: the delta is computed in unsigned arithmetic, so a
  counter that went backwards gives a huge positive figure, never a
  negative one. The model follows the code.
- Disk figure: the disk sampler subtracts nothing between calls. Its figure
  is a cumulative count, not a rate, and the model follows the code.
- Device line layout: the usual network device line has sixteen counters
  after the name, in padded columns, so the 18th token does not exist. The
  tx conversion then fails and tx keeps its earlier value
  (`Network.SixteenCounterLine`, which allows any runs of white space
  between tokens).
- Network.SixteenCounterLine: the name is taken as a token of its own,
  followed by white space. When the first counter is too wide for its
  column the kernel glues it to the name (`enp0s1:123456789`); that line
  has one token fewer, and no lemma states what it assigns.
- Cpu.ParseTicks: its contract states only the case of a line without a
  blank. What a well-formed line parses to is stated by
  `Cpu.RenderedLineParses`, and a line with too few counters by
  `Cpu.ShortLineFails`.
- Cpu.ShortLineFails: stated for one to six counters. A line with a label
  and no counters at all is not covered.

## Findings

| source | as written | input that shows it | evidently intended | confidence | as-written member | corrected member |
|---|---|---|---|---|---|---|
| main.c:111-127 | the previous rx and tx are kept in `static unsigned` (32-bit) while the counters are `unsigned long` (64-bit), so a counter of 2^32 or more is retained truncated | one line with rx = 2^32 and tx = 0 read twice: the second call reports 4194304 KiB | a second call on unchanged counters reports 0 | medium, not executed | `Network.TruncatedRetention` | `Network.WideUnchangedIsZero` |
| main.c:145-148 | `strstr(line, "sda")` also selects partition lines such as `sda1`; the literal `sda` then matches the start of `sda1`, and the first `%*u` after it reads the partition number | the disk line `   8       0 sda 0 0 100 0 0 0 50` followed by the partition line `   8       1 sda1 0 0 0 0 0 0`: the figure is 0 instead of 75 | the whole disk's sectors read and written decide the figure | medium, not executed | `Disk.PartitionHidesDiskExample` | `Disk.WholeDiskWins` |
