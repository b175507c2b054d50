# ArchWebBlocker scheduling core, modelled in Dafny

ArchWebBlocker keeps a list of website entries. Each entry has a url, an
`enabled` flag and a daily time window given as "HH:MM" start and end strings.
A background loop and the HTTP handlers call `update_hosts_file`, which does
the following:

- asks `check_block_needed` whether each website must be blocked at the
  current wall-clock time;
- removes the section it wrote last time from `/etc/hosts`, between the
  `## ARCHBLOCKER START` and `## ARCHBLOCKER END` marker lines;
- appends a new section with two `0.0.0.0` lines per blocked website, one
  for the bare domain and one for its `www.` form.

The add and remove handlers edit the `websites` list before they trigger
that rewrite.

The model has six modules:

- `Wrappers`: the `Option` type. `None` stands for a raised exception or a
  missing JSON key.
- `PyInt`: Python's `int(s)` on a string, including whitespace stripping, an
  optional sign and underscore digit separators. It is proved that
  converting the decimal rendering of any natural number gives back that
  number. Python's 4300-digit limit is not modelled; see "## Left out".
- `Schedule`: `check_block_needed`, with the current time passed in as a
  `Clock`. Times are compared as HHMM integers: 09:30 is 930.
- `Lines`: `readlines`, `writelines` and the substring test `sub in line`.
  It is proved that reading then writing restores the text, and that
  writing then reading restores a list of proper lines.
- `Hosts`: the rewrite.
  - The strip loop is a method with a loop invariant. It is specified by a
    ghost function `KeptLines`, defined line by line from the
    "inside a section" state.
  - Building the blocks is a method against `Entries(BlockedUrls(..))`.
  - `update_hosts_file` has its system calls (root check, `chattr`, the
    file read and write, the DNS flush) abstracted as succeed/fail inputs.
  - Lemmas relate successive rewrites.
- `Registry`: the `websites` list of the loaded configuration, as a class
  whose add and remove methods update it in place.

Behaviour of the code that the model keeps:

- Times are compared as HHMM integers: 09:30 is 930. A start or end time
  that `int` rejects, or a missing key, yields "not blocked".
- The appended opener is the single string `"\n## ARCHBLOCKER START\n"`.
  `readlines` returns it as two lines: a blank line, which is kept as
  foreign content on the next cycle, and the marker line. Each rewrite that
  blocks something therefore adds one blank line before the section, so
  repeated rewrites are not idempotent; `Hosts.RewriteAddsBlankLine` proves
  it.
- `add_website` appends without a duplicate check, and `remove_website`
  removes every entry with the given url.
- Blocked websites are written in list order.

## Model

| member | source | states |
|---|---|---|
| PyInt.Strip | backend/archblocker.py:84 | the stripped string neither starts nor ends with whitespace, and a string without surrounding whitespace is unchanged; `StripDrops` says what it is made of |
| PyInt.TrimStartDrops | backend/archblocker.py:84 | trimming the front drops a run of leading whitespace and nothing else |
| PyInt.TrimEndDrops | backend/archblocker.py:84 | trimming the back drops a run of trailing whitespace and nothing else |
| PyInt.StripDrops | backend/archblocker.py:84 | the stripped string is a contiguous slice of the argument with only whitespace before and after it |
| PyInt.ParseDigits | backend/archblocker.py:84 | an unsigned digit string converts exactly when it is non-empty, starts and ends with a digit, and has only single underscores between digits |
| PyInt.ParseInt | backend/archblocker.py:84-85 | a well-formed digit string, once surrounding whitespace is stripped, converts to its decimal value; any successful conversion had a non-blank argument; `ParseIntCases` gives the signed case and when conversion fails |
| PyInt.ParseIntCases | backend/archblocker.py:84-85 | `int` succeeds exactly when the stripped argument is a well-formed digit string, optionally preceded by '+' or '-'; '+' keeps the value and '-' negates it |
| PyInt.PaddedExample | backend/archblocker.py:84-85 | `int(" 7 ")` is 7 |
| PyInt.SignedExample | backend/archblocker.py:84-85 | `int("-05")` is -5 |
| PyInt.RejectedExamples | backend/archblocker.py:84-85 | `int("9am")` and `int("1__0")` raise |
| PyInt.ParseIntDigits | backend/archblocker.py:84-85 | a well-formed digit string converts to its decimal value, leading zeros included |
| PyInt.DecimalRoundTrip | backend/archblocker.py:84-85 | converting the decimal rendering of any natural number gives back that number |
| PyInt.DecimalValue | backend/archblocker.py:84-85 | the digit value of a decimal rendering is the rendered number |
| Schedule.CurrentHHMM | backend/archblocker.py:78-79 | a valid clock reading becomes an HHMM integer in 0..2359 whose hundreds are the hour and whose last two digits are the minute |
| Schedule.HHMMOrder | backend/archblocker.py:78-79 | for valid clock readings, HHMM order is time-of-day order |
| Schedule.RemoveColons | backend/archblocker.py:84 | removing colons leaves no colon, never lengthens the string, and leaves a colon-free string unchanged |
| Schedule.RemoveColonsAppend | backend/archblocker.py:84 | removing colons works piecewise over a concatenation |
| Schedule.ParseTime | backend/archblocker.py:84-85 | a colon-free time string converts as `int` converts it; `FormatTimeParses` and `ClockTextParses` give the value of "HH:MM" strings |
| Schedule.TimeField | backend/archblocker.py:84-85 | a missing start or end key gives no time; a present one converts as `ParseTime` does |
| Schedule.CheckBlockNeeded | backend/archblocker.py:76-107 | a disabled entry or one without `enabled` is not blocked; a missing or unconvertible start or end time, or a missing url, gives "not blocked"; a plain window blocks exactly when start <= now <= end; a window crossing midnight blocks exactly when now >= start or now <= end |
| Schedule.WindowIsDialArc | backend/archblocker.py:88-100 | for times on the 24-hour dial, both window cases are one rule: now is blocked exactly when its clockwise distance from start is at most the distance from start to end |
| Schedule.SingleInstantWindow | backend/archblocker.py:89-94 | a window whose start equals its end blocks at that one HHMM value and at no other |
| Schedule.FormatTimeParses | backend/archblocker.py:83-85 | the "HH:MM" string of an hour and a minute converts to hour * 100 + minute |
| Schedule.ClockTextParses | backend/archblocker.py:83-85 | any "ab:cd" of four digits converts to the integer abcd |
| Schedule.ClockTextColonFree | backend/archblocker.py:84 | removing the colon from "ab:cd" leaves "abcd" |
| Schedule.ParseTimeDigits | backend/archblocker.py:84-85 | a time string whose colon-free form is a well-formed digit string converts to that string's value |
| Schedule.NightWindowExample | backend/archblocker.py:95-100 | the window 22:00-06:00 blocks at 23:00 and at 06:00 but not at 07:00 |
| Lines.Contains | backend/archblocker.py:135-138 | the substring test `sub in line`; `ContainsIffSubstring` ties it to a match at some position |
| Lines.ContainsIffSubstring | backend/archblocker.py:135-138 | the substring test holds exactly when the pattern starts at some position of the line |
| Lines.ContainsFirstChar | backend/archblocker.py:135-138 | a line can only contain a marker if it holds the marker's first character |
| Lines.FirstLineLength | backend/archblocker.py:127-128 | the first line of a text ends at its first newline, or at the end of the text when there is none |
| Lines.ReadLines | backend/archblocker.py:127-128 | `readlines` splits after every newline; `ReadLinesNonEmpty`, `WriteReadLines` and `ReadLinesProper` state its properties |
| Lines.ReadLinesNonEmpty | backend/archblocker.py:127-128 | `readlines` returns no empty line |
| Lines.WriteLines | backend/archblocker.py:160-161 | `writelines` concatenates its lines; `WriteLinesAppend`, `WriteReadLines` and `ReadWriteLines` state its properties |
| Lines.WriteLinesAppend | backend/archblocker.py:160-161 | writing a concatenation of line lists writes one text after the other |
| Lines.WriteReadLines | backend/archblocker.py:127-128 | writing back the lines read from a text restores the text exactly |
| Lines.ReadProperLine | backend/archblocker.py:127-128 | a proper line followed by more text is read back as that line first |
| Lines.ReadWriteLines | backend/archblocker.py:160-161 | reading back lines that were written gives the same lines when each is a proper line |
| Lines.ReadLinesProper | backend/archblocker.py:127-128 | text that is empty or ends in a newline is read as proper lines only |
| Hosts.InBlockStep | backend/archblocker.py:133-140 | a start-marker line opens the section, otherwise an end-marker line closes it, and any other line leaves the state unchanged |
| Hosts.StripManagedSection | backend/archblocker.py:131-142 | the strip loop with its `in_block` flag produces exactly the foreign lines `KeptLines` of its input |
| Hosts.KeptUpToMembers | backend/archblocker.py:134-142 | a line is in the first n kept lines exactly when it occurs before n outside a section and is not a marker |
| Hosts.KeptLinesMembers | backend/archblocker.py:131-142 | stripping keeps exactly the non-marker lines outside a section; it adds no line, keeps no marker and never lengthens the file |
| Hosts.KeptUpToLength | backend/archblocker.py:141-142 | at most one line is kept per line read |
| Hosts.KeptBeforeMarkers | backend/archblocker.py:134-142 | before the first marker line every line is kept, in order |
| Hosts.KeptInsideSection | backend/archblocker.py:134-142 | after a start marker and up to the next marker nothing is kept |
| Hosts.UnmarkedUnchanged | backend/archblocker.py:131-142 | a file without marker lines passes through stripping unchanged |
| Hosts.StripTwice | backend/archblocker.py:131-142 | stripping an already stripped file changes nothing |
| Hosts.SectionStripped | backend/archblocker.py:131-142 | a complete section appended after marker-free lines is removed whole, and the lines before it are kept |
| Hosts.DelimitedSectionStripped | backend/archblocker.py:131-142 | any section opened by a start-marker line and closed by an end-marker line, appended after marker-free lines, is removed whole |
| Hosts.MarkerLines | backend/archblocker.py:154-157 | the start line and the opener hold the start marker, the closer holds the end marker, and a blank line holds neither |
| Hosts.NoHashNoMarker | backend/archblocker.py:135-138 | a line without '#' holds neither marker |
| Hosts.BlockedUrls | backend/archblocker.py:145-152 | there is at most one blocked url per website |
| Hosts.HostsEntry | backend/archblocker.py:149-150 | the f-string `'0.0.0.0 {host}\n'`; `HostsEntryProper` and `ExampleEntries` state its properties |
| Hosts.Entries | backend/archblocker.py:148-151 | the entries of a list of urls; `EntriesShape` gives their positions and `EntriesProper` and `EntriesUnmarked` their form |
| Hosts.EntriesShape | backend/archblocker.py:148-151 | there are exactly two entries per url: the bare domain at position 2k and the `www.` form at 2k+1 |
| Hosts.BlockedUrlsMembers | backend/archblocker.py:146-147 | a url is blocked exactly when some website with that url needs blocking now |
| Hosts.BlockedUrlsAppend | backend/archblocker.py:146-152 | the block list of a concatenation is the concatenation of the block lists, so websites keep their list order |
| Hosts.BlockedUrlsStep | backend/archblocker.py:146-152 | one more website extends the block list by its url exactly when it needs blocking |
| Hosts.EntriesStep | backend/archblocker.py:148-151 | one more url extends the entries by its two lines |
| Hosts.ManagedSection | backend/archblocker.py:154-157 | nothing when no url is blocked, otherwise opener, entries and closer; `RewriteHosts` and `MarkerLines` state its properties |
| Hosts.BuildBlocks | backend/archblocker.py:145-152 | the loop builds the entries of the blocked urls: two per blocked website, in order, bare domain first |
| Hosts.RewriteHosts | backend/archblocker.py:131-157 | the new content is the foreign lines followed by the managed section; with nothing blocked it is the foreign lines alone and holds no marker; otherwise it has one opener, two entries per blocked website and one closer, at the stated positions |
| Hosts.UpdateHostsFile | backend/archblocker.py:111-182 | the file is written exactly when the root check, the unlock, the read and the write succeed, and then it holds the rewritten content; the call reports success exactly when, in addition, the relock and the DNS flush succeed |
| Hosts.UnblockedRewriteKeepsText | backend/archblocker.py:126-161 | with nothing to block, a file without marker lines is written back byte for byte |
| Hosts.RewrittenReadsBack | backend/archblocker.py:154-161 | after a rewrite that blocks something, reading the file back gives the foreign lines, a blank line, the start marker line, the entries and the closer |
| Hosts.OpenerWritesAsTwoLines | backend/archblocker.py:155 | writing the opener writes the same text as a blank line followed by the start-marker line |
| Hosts.SplitLineWrites | backend/archblocker.py:160-161 | writing one line a + b writes the same text as writing a and then b |
| Hosts.KeptProper | backend/archblocker.py:127-142 | the foreign lines of a file that ends in a newline are proper lines |
| Hosts.SectionLinesProper | backend/archblocker.py:154-157 | the section as read back consists of proper lines |
| Hosts.EntriesProper | backend/archblocker.py:148-151 | entries for urls without a newline are proper lines |
| Hosts.HostsEntryProper | backend/archblocker.py:149-150 | an entry for a host without a newline is one proper line |
| Hosts.EntriesUnmarked | backend/archblocker.py:148-151 | entries for urls without '#' hold no marker |
| Hosts.ForeignUnmarked | backend/archblocker.py:131-142 | the foreign lines, plus the blank line the opener leaves, hold no marker |
| Hosts.RewriteAddsBlankLine | backend/archblocker.py:126-161 | each rewrite that blocks something adds exactly one blank line to the foreign content, so repeated rewrites are not idempotent |
| Hosts.OfficeHoursBlocked | backend/archblocker.py:144-152 | a website scheduled 09:00-17:00 is blocked at 10:00 |
| Hosts.OfficeHoursAllowed | backend/archblocker.py:144-152 | the same website is not blocked at 18:00 |
| Hosts.ExampleEntries | backend/archblocker.py:148-151 | example.com yields the lines "0.0.0.0 example.com" and "0.0.0.0 www.example.com" |
| Registry.WithoutUrl | backend/archblocker.py:213 | the filtered list is never longer than the original |
| Registry.WithoutUrlMembers | backend/archblocker.py:213 | the filter fails exactly when some entry has no url; otherwise it keeps exactly the entries whose url differs |
| Registry.WithoutUrlAppend | backend/archblocker.py:213 | the filter works entry by entry over a concatenation, keeping the order |
| Registry.WithoutAbsentUrl | backend/archblocker.py:213 | removing a url that no entry has changes nothing |
| Registry.WithoutUrlTwice | backend/archblocker.py:213 | removing the same url twice is the same as removing it once |
| Registry.RemoveUndoesAdd | backend/archblocker.py:195-215 | removing a url right after adding an entry with that url gives the list as filtered before the add |
| Registry.Config.constructor | backend/archblocker.py:55-57 | the fallback configuration has no websites |
| Registry.Config.AddWebsite | backend/archblocker.py:195-200 | an entry with a url is appended at the end, with no duplicate check; without a url the list is unchanged and the call fails |
| Registry.Config.RemoveWebsite | backend/archblocker.py:209-213 | when every entry has a url, the list becomes the filtered list and no entry keeps the url; otherwise it fails and the list is unchanged |

## Left out

- The Flask application, CORS, JSON (de)serialisation and the HTTP status codes are not modelled. The order in which the handlers call `save_config` and `update_hosts_file` is not modelled either.
- `load_config` and `save_config` file I/O is left out. The configuration is the `Registry.Config` object, and the missing-file fallback is its constructor.
- Logging is left out. Only its side effect is modelled: the log line reads `website['url']`, so an entry without a url is never blocked.
- The background thread, its 60-second sleep, and its skipping of the update when the websites list is empty or missing are left out.
- The root check, `chattr -i`/`chattr +i`, the file read and write, and the DNS cache flush are external calls. They appear only as the succeed/fail inputs of `Hosts.HostsAccess`.
- Partial writes, crashes between truncation and write, encodings and newline translation are left out. A write either happens completely or not at all.
- Hosts.UpdateHostsFile: `datetime.now()` is called once per website in the source; the model uses one clock reading for the whole rewrite.
- Python truthiness of non-boolean `enabled` values is not modelled. Entries that are not objects, and time values that are not strings, are not modelled either.
- PyInt.ParseInt: only ASCII whitespace and ASCII digits are modelled. Python's `int` also accepts Unicode whitespace and digits. Recent CPython releases also raise `ValueError` for a decimal string of more than 4300 digits; the model accepts any length, so `PyInt.DecimalRoundTrip` holds for Python only below that limit.
- Hosts.RewriteAddsBlankLine: this is stated only for files that are empty or end in a newline, and only for blocked urls without '#' or a newline. Other urls could themselves contain marker text.
