# x52: models and proofs

This project models the parts of the Saitek X52 Pro driver and daemon that carry state, and proves that
they keep their promises:

* **The joystick library as a write-back cache.** Setters change a shadow of the joystick and mark
  registers in `update_mask`; `libx52_update` writes the marked registers as vendor requests and keeps the
  rest of the mask when a transfer fails. The joystick itself is a second state machine that interprets the
  requests as the vendor API describes them (`Panel`). `Shadow` has the setters and the encodings, `Setters`
  what each of them means to its caller, `Update` one update on the joystick, `Runs` whole runs, `Device` the
  library as a program with its retry loop, handlers and connection, `DeviceManager` the daemon's driver thread,
  and `Resync` what applying the configuration does after a reconnect.
* **The character map compiler and its lookup.** A byte trie is filled with UTF-8 encodings (`Utf8`,
  `Trie`), printed as 64-entry tables (`CharTables`, and as a heap program `CharMapGen`), and walked one
  byte at a time by the conversion loop (`CharLookup`, and end to end `CharMap`).
* **The configuration.** `IniText` is the INI dialect on strings, `IniLines` what each kind of line means, `Ini`
  the parser that cuts a line buffer in place, `Numbers` printing and reading integers, `Spellings` which texts
  are accepted as values, `Shipped` the installed configuration file, `Config` the keys with their parsers and dumpers,
  `ConfigStore` which assignment wins, `SaveLoad` exactly when a saved configuration comes back, `Overrides`
  the command-line overrides in their linked queue, `Configuration` the whole as a program, and `Settings` the
  way from the text of a file to the lamps of a reconnected joystick.
* **The daemon's protocol.** `Framing` has the NUL-separated argument vectors, `Clients` the client table
  with its poll set and event dispatch.

Code that changes things step by step is modelled by classes and methods, each proved equal to a function of
its inputs and the old state; the lemmas are about those functions.

Where the code and its documentation or intent disagree, the code is kept as it is, an input shows the
difference, and the exact condition is proved:

* A conversion stops at the first unmapped character instead of dropping it, and reports a buffer that is just
  filled as too small (`DroppingFails`, `ExactFitFails`, `DocumentedIff`).
* The date format is not validated, and an unknown one blocks every update (`UnknownDateFormatBlocks`,
  `UpdateCanFinishIffDateFormatKnown`, `Libx52.Update`).
* The timezone of the primary clock is the local offset cut to whole minutes. World clocks are right if and only
  if the odd seconds do not carry into another minute (`WorldClocksAreRight`, `OddOffsetFails`), and the year of a
  date before 1900 is stored wrongly (`SetClockStoresDate`, `EarlyYearFails`).
* A comment that is longer than the buffer is obeyed from there on (`LongCommentIsObeyed`,
  `FittingCommentsAreIgnored`).
* A saved configuration need not load: clock formats are printed in a form the parser rejects, and strings may be
  too long for its buffer, even so that their end is read as an assignment (`TwentyFourHourIsLost`,
  `LongNameIsObeyed`, `SaveLoadInverseIff`).

A configuration file is never rejected because of its contents (`LoadFile`): the handler's zero for success is what
the INI parser takes for a failure, and the parser's positive result is ignored.

Assumptions: a control transfer that reports an error has had no effect on the joystick; critical sections under
`device_mutex` are atomic, so every interleaving of setters and updates is a run; `localtime_r` gives the
time moved by the offset in seconds that it reports, and timezone names resolve to arbitrary offsets; `accept`
returns a descriptor that is not open; messages are in the untranslated C locale; memory allocation succeeds.

## Model

| member | source | states |
|---|---|---|
| Prelude.CDivTruncates | libx52/x52_date_time.c:70 | quotient and remainder give back the dividend and never have the opposite sign |
| Prelude.U16Keeps | daemon/x52d_led.c:87-95 | a conversion to 16 bits keeps what fits and is a reduction modulo 65536 otherwise |
| Bits.OrIsBitwise | libx52/x52_control.c:212-249 | the or that assembles words sets exactly the bits of either side |
| Bits.OffsetFieldsAreDisjoint | libx52/x52_control.c:248 | the or of the shifted and masked fields of an offset word is their sum, for all field values |
| Bits.TimeFieldsAreDisjoint | libx52/x52_control.c:281-283 | the or of the shifted and masked fields of a clock word is their sum |
| Device.Joined | libx52/x52_control.c:139-140 | two bytes ored together are the word that the encodings of text and date are about |
| Device.PackedOffset | libx52/x52_control.c:248 | the ored fields are the word that the encoding of an offset is about |
| Device.PackedTime | libx52/x52_control.c:281-283 | the ored fields are the word that the encoding of the clock is about |
| Panel.PanelExtensionality | docs/specs/vendor_api.md:14-166 | the 31 registers are all there is: joysticks showing the same are the same |
| Update.OffsetWordDecodes | libx52/x52_control.c:212-249 | for every pair of timezones the packed sign and magnitude, read by the joystick, is the displayed offset, with the 24-hour flag undisturbed |
| Update.DisplayOffsetIsCongruent | libx52/x52_control.c:217-248 | the offset fits ten bits, is congruent to the true difference modulo 1440, and is the difference itself up to 416 minutes |
| Update.InterpretFrame | docs/specs/vendor_api.md:14-166 | a request changes the register it is for and no other |
| Update.CommandsTarget | libx52/x52_control.c:103-287 | a handler only issues requests for its own register |
| Update.AppendsLine | libx52/x52_control.c:131-147 | the append requests of a line, two characters each, spell its text, padded with one blank if odd |
| Update.WritesRegister | libx52/x52_control.c:103-287 | all requests of a handler, delivered, make its register show the shadow, whatever it showed or was left half-written before |
| Update.UpdateEffect | libx52/x52_control.c:325-363 | after any update, finished or stopped anywhere, each register that left the mask shows the shadow and each that was not marked is untouched |
| Update.UpdateKeepsValid | libx52/x52_control.c:325-363 | an unknown date format stays marked whatever an update does |
| Update.UpdateCost | libx52/x52_control.c:344-360 | an update issues at most 56 requests, in ascending order of their registers |
| Update.LineCost | libx52/x52_control.c:118-150 | a marked line costs one clear and half its length in appends, rounded up |
| Runs.ApplyMarks | libx52/x52_date_time.c:48-225 | no setter changes what any register should show without marking that register, including the registers that depend on several fields |
| Runs.RejectedCallsChangeNothing | libx52/x52_mfd_led.c:18-183 | a setter that does not report success, "try again" included, leaves the shadow as it was |
| Runs.StepKeepsCoherent | libx52/x52_control.c:325-363 | setters, updates with any outcome, losing and finding a joystick keep this: a register that was marked or right when the joystick was attached, or marked since, shows the shadow unless it is marked |
| Runs.CoherentThroughout | libx52/x52_control.c:325-363 | the same in every state of every run that starts with it |
| Runs.FreshRunCoherence | libx52/x52_core.c:183-228 | from a fresh joystick and zeroed shadow, after any setters and updates short of losing the joystick, each unmarked register shows the shadow, and after a finished update all of them do |
| Runs.OnlyWritesClear | libx52/x52_control.c:339-360 | a bit leaves the mask only in an update that made its register show the shadow |
| Runs.MarkedUntilWritten | daemon/x52d_device.c:96-187 | over every interleaving of critical sections: between a state where a register is marked and one where it is not lies an update that wrote it from the shadow of that moment |
| Runs.Resumability | libx52/x52_control.c:118-150 | any number of updates stopped anywhere, inside a line or between the date words included, and one that finishes leave the joystick as one uninterrupted update would |
| Runs.UpdateCanFinishIffDateFormatKnown | libx52/x52_date_time.c:216-225 | the format setter accepts anything: some update can finish if and only if the format is known, and otherwise no clock register is reached either |
| Runs.UnknownDateFormatBlocks | libx52/x52_date_time.c:216-225 | a call that succeeds and after which no update can finish |
| Runs.LocalZoneTruncates | libx52/x52_date_time.c:64-74 | the stored timezone is the local offset in seconds without the seconds beyond whole minutes, which have its sign; for UTC it is zero |
| Runs.SetClockAgrees | libx52/x52_date_time.c:64-119 | after a clock setting the stored time is that of the moment moved by the local offset, and the timezone that offset in minutes, whatever was stored before |
| Runs.WorldClocksAreRight | libx52/x52_date_time.c:64-119 | in any run of clock, timezone and format calls, once the registers are written the base clock shows local time, and clocks 2 and 3 show UTC plus their timezone modulo a day if and only if the odd seconds of the local offset do not carry into another minute, as with whole minutes they never do |
| Runs.OddOffsetFails | libx52/x52_date_time.c:70 | a clock setting with an offset of odd seconds after which a clock for UTC shows 23:59 at midnight |
| Setters.TextIsShown | libx52/x52_mfd_led.c:18-38 | a line is to show, and after a finished update shows, the first 16 characters of its text, with a blank behind an odd number of them |
| Setters.LampsAndLevelsAreShown | libx52/x52_mfd_led.c:136-183 | the same for shift indicator, blinking and both brightness levels |
| Setters.LedsAreShown | libx52/x52_mfd_led.c:40-115 | off and on for two LEDs; red lights the first lamp of the others, green the second, amber both |
| Setters.DateIsShown | libx52/x52_date_time.c:135-147 | day, month and year appear in the order of the date format |
| Setters.TimeIsShown | libx52/x52_date_time.c:122-133 | hour and minute appear in the format of the primary clock |
| Setters.ClockFormatIsShown | libx52/x52_date_time.c:181-214 | a clock changes its format and keeps its time |
| Setters.TimezoneIsShown | libx52/x52_date_time.c:149-179 | the timezone is stored, and the clock moved by the difference to the primary one |
| Setters.SetClockStoresDate | libx52/x52_date_time.c:82-96 | day and month are those of the broken-down time, and the year its last two digits if and only if it is not before 1900 or ends in 00 |
| Setters.EarlyYearFails | libx52/x52_date_time.c:84 | a date in 1899 is stored with year 255 |
| Setters.SetClockDateIsShown | libx52/x52_date_time.c:82-96 | that date appears in the order of the date format, changed or not |
| Setters.SettersFrame | libx52/x52_mfd_led.c:18-183 | no call marks, or changes what is to be shown by, a register it is not for |
| Setters.ReturnCodes | libx52/x52_date_time.c:48-225 | exactly when each error is returned; "try again" means that a clock setting changed nothing |
| Device.TranslateLibusbError | libx52/x52_control.c:21-67 | only a successful transfer is a success, and only a lost joystick reads as lost |
| Device.TranslationInverse | libx52/x52_control.c:21-67 | each result comes from its own libusb code only, and every other code is a USB failure |
| Device.UsbHandle.ControlTransfer | libx52/x52_control.c:69-101 | a transfer takes effect exactly when it reports success |
| Device.Libx52.Disconnect | libx52/x52_core.c:97-111 | afterwards no handle and no features are left |
| Device.Libx52.Connect | libx52/x52_core.c:113-181 | binds to the first supported joystick of the bus if it opens, with the right feature flag, and otherwise reports why it cannot; coherence is kept |
| Device.Libx52.SetText | libx52/x52_mfd_led.c:18-38 | exactly the specified change of shadow and mask, and coherence kept |
| Device.Libx52.SetProLedState | libx52/x52_mfd_led.c:40-115 | the two lamp bits and marks for each state, and the states each LED refuses |
| Device.Libx52.SetLedState | libx52/x52_mfd_led.c:117-134 | refused without settable LEDs, otherwise as specified; coherence kept |
| Device.Libx52.SetBrightness | libx52/x52_mfd_led.c:136-151 | as specified; coherence kept |
| Device.Libx52.SetShift | libx52/x52_mfd_led.c:153-167 | as specified; coherence kept |
| Device.Libx52.SetBlink | libx52/x52_mfd_led.c:169-183 | as specified; coherence kept |
| Device.Libx52.StoreClock | libx52/x52_date_time.c:76-119 | stores and marks date, time and timezone only where they differ, and says whether anything did |
| Device.Libx52.SetClock | libx52/x52_date_time.c:48-120 | as specified for local and UTC time, out of range without a broken-down time; coherence kept |
| Device.Libx52.SetTime | libx52/x52_date_time.c:122-133 | as specified; coherence kept |
| Device.Libx52.SetDate | libx52/x52_date_time.c:135-147 | as specified; coherence kept |
| Device.Libx52.SetClockTimezone | libx52/x52_date_time.c:149-179 | as specified, with the refused offsets and clocks; coherence kept |
| Device.Libx52.SetClockFormat | libx52/x52_date_time.c:181-214 | as specified, with the refused formats and clocks; coherence kept |
| Device.Libx52.SetDateFormat | libx52/x52_date_time.c:216-225 | as specified; coherence kept |
| Device.Libx52.VendorCommand | libx52/x52_control.c:69-101 | at most three transfers, at most one of them effective, the handle dropped exactly when the joystick is gone |
| Device.FirstSuccessOfThree | libx52/x52_control.c:81-90 | the transfers made for a request end with the first success among three, or with the third |
| Device.Libx52.WriteLine | libx52/x52_control.c:118-150 | delivers a prefix of the line's requests, all of them on success |
| Device.Libx52.WriteDate | libx52/x52_control.c:175-210 | delivers a prefix of the date's requests, and nothing for an unknown format |
| Device.Libx52.CalculateClockOffset | libx52/x52_control.c:212-249 | the reduction loop ends, and the word is the specified one for all integer timezones |
| Device.Libx52.WriteTime | libx52/x52_control.c:251-287 | delivers the request of the clock register |
| Device.Libx52.Dispatch | libx52/x52_control.c:289-323 | each bit's handler delivers that register's requests in order, a prefix of them on failure |
| Device.Libx52.WriteDirty | libx52/x52_control.c:339-360 | the loop over the mask is one of the outcomes of the specification, with the remaining mask restored |
| Device.Libx52.Update | libx52/x52_control.c:325-363 | an update is one step of the system, succeeds exactly when it finishes, keeps coherence and takes at most 168 transfers; with every transfer succeeding it succeeds if and only if the date format is known |
| DeviceManager.DeviceManager.SetLedState | daemon/x52d_device.c:115-125 | one critical section around the setter; without settable LEDs nothing happens and success is reported |
| DeviceManager.DeviceManager.SetClockFormat | daemon/x52d_device.c:96-137 | one critical section around the setter, asking for an update on success |
| DeviceManager.DeviceManager.ApplyConfig | daemon/x52d_config.c:106-112 | the joystick goes through exactly the setter calls of the configuration, in the order of its keys |
| DeviceManager.DeviceManager.DevUpdate | daemon/x52d_device.c:163-187 | a lost joystick is let go, any other failure leaves the update asked for |
| DeviceManager.DeviceManager.Round | daemon/x52d_device.c:35-64 | one round of the thread: a joystick that is found goes through the calls of the configuration, which on an X52 Pro marks every register of a legal one; a pending update is one step of the system; otherwise nothing changes |
| Resync.MarksExactly | libx52/x52_date_time.c:149-225 | the registers each daemon call marks, no more and no fewer |
| Resync.ConfigMarksAllIffLegal | daemon/x52d_config.def:19-66 | applying the configuration marks every register it owns if and only if the clock is enabled, every LED state suits its LED, and each clock has an accepted format or timezone |
| Resync.ReconnectResync | daemon/x52d_device.c:38-56 | after reconnecting to a fresh X52 Pro and applying such a configuration with a known date format, the next update can finish and then every owned register shows the shadow, whatever happened before |
| Resync.ConfigHeld | daemon/x52d_clock.c:114-162 | after applying a configuration with the clock enabled the shadow holds each of its clock formats, its date format and its timezones in range, whatever it held before |
| Resync.LastSetterWins | daemon/x52d_config.c:106-112 | the last call that marks a lamp or level decides what it shows |
| Resync.ReconnectShowsSettings | daemon/x52d_led.c:22-75 | and then every LED and brightness register shows its configured setting |
| Settings.LoadedInDomain | daemon/x52d_config_parser.c:33-132 | after a successful load every field holds a value its parser can produce, whatever the file contains |
| Settings.LoadedConfigReachesDevice | daemon/x52d_config.c:19-44 | applied to a reconnected X52 Pro, a loaded configuration marks every register it owns if and only if it enables the clock and gives each LED a state it supports; then the shadow holds the loaded date format, clock formats and timezones in range, the next update can finish, the clocks and the date show that shadow, the lamps show what was loaded, and both brightness registers the loaded numbers, or their low 16 bits where those do not fit |
| Settings.FileReachesDevice | daemon/x52d_config_parser.c:203-219 | from text to lamps: a file with any text loads, with any accepted overrides, to a configuration that reaches the joystick in this way |
| Settings.SavedConfigReachesDevice | daemon/x52d_config_dump.c:96-139 | a configuration whose fields survive saving and loading reaches the joystick as it was saved, whatever was held before |
| Settings.LampHasItsKey | daemon/x52d_config.def:49-59 | each lamp is set from the key named after its LED |
| Utf8.EncodeShape | libx52util/x52_char_map_gen.py:91-96 | the shape of UTF-8 encodings as in section 3 of RFC 3629 |
| Utf8.DecodeEncode | libx52util/x52_char_map_gen.py:91-96 | decoding undoes encoding for every Unicode scalar value |
| Utf8.PrefixFree | libx52util/x52_char_map_gen.py:98-111 | no encoding is a prefix of another one |
| Utf8.EncodePreservesOrder | libx52util/x52_char_map_gen.py:91-96 | encodings sort like their characters, as in section 1 of RFC 3629 |
| Trie.InsertDropsNothing | libx52util/x52_char_map_gen.py:109-111 | replacing the last node of an insertion never loses a child |
| Trie.BuiltRepresents | libx52util/x52_char_map_gen.py:80-111 | after any insertions a path is an entry if and only if it is the full encoding of an inserted character, with the last value given to it, and the other nodes are the prefixes of encodings |
| Trie.EntriesAreLeaves | libx52util/x52_char_map_gen.py:98-111 | interior nodes are never entries and always have a child, entries never have one |
| CharTables.NumberInjective | libx52util/x52_char_map_gen.py:100-101 | the number a table is named by determines its path |
| CharTables.RowsMean | libx52util/x52_char_map_gen.py:55-60 | an initializer list gives each index the cell of its child |
| CharTables.OrderMembers | libx52util/x52_char_map_gen.py:39-64 | a table is emitted for exactly the nodes that have children |
| CharTables.ChildrenOrdered | libx52util/x52_char_map_gen.py:45-48 | every table is emitted once, after the tables it points to |
| CharTables.GenerateCompiles | libx52util/x52_char_map_gen.py:113-134 | table names are distinct, initializers are inside their arrays, every table is defined before it is used |
| CharTables.WalkIsTrie | libx52util/x52_char_map_lookup.c:69-71 | following the emitted tables by the low six bits of each byte reaches what walking the trie reaches |
| CharLookup.SkipContinuation | libx52util/x52_char_map_lookup.c:73-78 | skips exactly the continuation bytes, and not past the terminator |
| CharLookup.Convert | libx52util/x52_char_map_lookup.c:32-83 | for any bytes up to the terminator the loop ends and yields the specified output, cut to the buffer, with the status for a filled buffer, and touches nothing behind it |
| CharLookup.TextOutput | libx52util/x52_char_map_lookup.c:44-82 | on UTF-8 text that output is the glyphs of the leading characters that have one |
| CharLookup.PiecesOutput | libx52util/x52_char_map_lookup.c:58-78 | on characters that are whole or cut short, mapped or not, the output is the glyphs of the whole ones before the first piece that leaves the trie |
| CharLookup.CutShortIsSkipped | libx52util/x52_char_map_lookup.c:58-67 | where the characters are mapped but some are cut short, anywhere, the output is that of the whole ones |
| CharLookup.CompiledGlyph | libx52util/x52_char_map_gen.py:80-134 | the tables compiled from any mappings give each character its last mapping, and no proper prefix of an encoding ends a lookup |
| CharLookup.ConvertedIsMapAll | libx52util/x52_char_map_lookup.c:44-82 | on text whose characters are all mapped the result is decode-then-map |
| CharLookup.DropsUnknownIffLast | libx52util/x52_char_map_lookup.c:73-78 | before the output is cut, unmapped characters are dropped as documented if and only if no mapped one follows an unmapped one |
| CharLookup.DocumentedIff | libx52util/libx52util.h:36-50 | a call returns the documented bytes and status if and only if the leading mapped characters leave room and no mapped one follows an unmapped one, or they fill the buffer and the text has more mapped characters than fit |
| CharLookup.DroppingFails | libx52util/x52_char_map_lookup.c:73-78 | a call that loses a mapped character behind an unmapped one |
| CharLookup.ExactFitFails | libx52util/x52_char_map_lookup.c:51-54 | a call that converts the whole text and reports that the buffer was too small |
| CharMap.CompileAndConvert | libx52util/x52_char_map_lookup.c:32-83 | from any list of mappings through the generated tables: on fully mapped text the loop yields decode-then-map cut to the buffer, with the status, and on any text the documented answer under exactly that condition |
| CharMapGen.MapTable.Put | libx52util/x52_char_map_gen.py:104-111 | placing a new node keeps the heap a tree and drops exactly what hung below the old one |
| CharMapGen.MapTable.AddToTable | libx52util/x52_char_map_gen.py:80-111 | the heap after a call is the trie after the insertion; code points without encoding are refused and change nothing |
| CharMapGen.MapTable.OutputNodes | libx52util/x52_char_map_gen.py:39-64 | the recursion yields the specified tables in the specified order |
| CharMapGen.MapTable.OutputTable | libx52util/x52_char_map_gen.py:113-134 | the whole output is the image of the trie |
| CharMapGen.Generator | libx52util/x52_char_map_gen.py:80-134 | from any list of mappings to an image that compiles |
| IniText.ChunksConserve | lib/inih/ini.c:265-288 | repeated reading returns the text, cut only after newlines and where the buffer is full |
| IniText.LinesOfPlain | lib/inih/ini.c:97-135 | without NUL characters the parser sees exactly what the reads return |
| IniText.FileCallsOneLine | lib/inih/ini.c:97-241 | whatever a file contains, no value that is read has a newline or a NUL |
| IniText.FittingLines | lib/inih/ini.c:97-241 | lines of at most the buffer's size, newline included, are parsed line by line |
| IniText.ValueReadsBackIffClean | lib/inih/ini.c:136-228 | a printed value is read back unchanged if and only if it is trimmed and no ';' starts it or follows whitespace |
| IniText.PairReadsBack | lib/inih/ini.c:136-228 | a printed pair is read as one call with that name and value, in the current section |
| IniText.HeaderReadsBack | lib/inih/ini.c:180-196 | a printed header sets the section and forgets the previous name |
| IniText.DocumentInverse | lib/inih/ini.c:97-241 | parsing a printed document of clean sections, with lines up to the buffer's size, makes exactly its calls, in order |
| IniLines.FindIsFirst | lib/inih/ini.c:67-82 | a search ends at the first of its characters, the first ';' behind whitespace, or the end |
| IniLines.LineHasCore | lib/inih/ini.c:167 | every line is blanks, trimmed text and blanks, the form that the following rows are about |
| IniLines.CommentIsIgnored | lib/inih/ini.c:169-171 | a line that is blank, or that starts with ';' or '#' behind whitespace, changes nothing and calls nothing |
| IniLines.ContinuationRepeatsName | lib/inih/ini.c:172-179 | an indented line behind a pair gives the previous name once more, with the trimmed line |
| IniLines.HeaderSetsSection | lib/inih/ini.c:180-196 | what is between the brackets becomes the section, cut to fit, and the previous name is forgotten |
| IniLines.PairValue | lib/inih/ini.c:197-228 | a pair with '=' or ':' is one call with its trimmed name and the trimmed value in front of an inline comment |
| IniLines.MalformedIff | lib/inih/ini.c:169-228 | a line is malformed if and only if it is no blank, comment or continuation and lacks its bracket or delimiter in front of any inline comment; then it changes nothing |
| IniLines.BomIsSkipped | lib/inih/ini.c:160-166 | a byte order mark in front of the first line makes no difference |
| IniLines.TruncatedFits | lib/inih/ini.c:86-94 | a kept section or name is the longest prefix that fits |
| IniLines.CommentsDoNotMatter | lib/inih/ini.c:97-241 | comments and blank lines can be put in anywhere without changing the calls made |
| IniLines.FittingCommentsAreIgnored | lib/inih/ini.c:97-241 | the same from the text of a file whose lines fit the buffer |
| IniLines.ErrorLineIsFirst | lib/inih/ini.c:97-241 | the result is zero if and only if no line is malformed or rejected, and else the number of the first that is |
| Ini.RStripInPlace | lib/inih/ini.c:48-54 | strips trailing whitespace and touches nothing else of the buffer |
| Ini.LSkipFrom | lib/inih/ini.c:57-62 | finds the first character that is no whitespace |
| IniLines.Spaces | lib/inih/ini.c:57-62 | whitespace is exactly the six characters of the C locale |
| Ini.FindCharsOrComment | lib/inih/ini.c:67-82 | finds the first of the given characters or of an inline comment |
| Ini.StrNCpy0 | lib/inih/ini.c:86-94 | copies a string, truncated to fit with its terminator |
| Ini.StringReader.Read | lib/inih/ini.c:265-288 | reads up to a newline or the size of the buffer, terminates it, and advances by what it read; a NUL in it ends the string early |
| Ini.Parser.SectionLine | lib/inih/ini.c:180-196 | a section line in the buffer has the specified effect on the kept section and name |
| Ini.Parser.PairLine | lib/inih/ini.c:197-228 | a name-value line, cut in place, gives the specified call and kept name |
| Ini.Parser.ParseLine | lib/inih/ini.c:136-228 | one round of the loop is the specified step: byte order mark, blank and comment lines, continuation, section, pair |
| Ini.Parser.ParseStream | lib/inih/ini.c:97-241 | for any bytes, the calls made do not depend on what the handler returns, and the result is the first bad line |
| Numbers.ParsePrintInt | daemon/x52d_config_parser.c:61-81 | every 32-bit integer survives printing and reading in base 0 |
| Spellings.DigitValues | daemon/x52d_config_parser.c:70 | the sixteen digits in their order, in small and capital letters |
| Spellings.NumeralParses | daemon/x52d_config_parser.c:61-81 | blanks, a sign, a prefix and digits of the base it stands for are read as their value, unless that does not fit a long |
| Spellings.OnlyNumeralsParse | daemon/x52d_config_parser.c:61-81 | nothing else is a number, except the empty string |
| Spellings.OtherNotationsParse | daemon/x52d_config_parser.c:61-81 | ints survive being printed in hexadecimal or octal, or with a plus sign |
| Spellings.ParseWords | daemon/x52d_config_parser.c:33-132 | booleans, LED states, clock and date formats are accepted exactly when they are one of the listed words up to case, with the value of that word |
| Spellings.ParseString | daemon/x52d_config_parser.c:49-59 | every string is accepted, cut to 254 characters |
| Config.EntriesDistinct | daemon/x52d_config.def:19-90 | no two keys coincide, not even up to case |
| Config.DumpParses | daemon/x52d_config_dump.c:30-91 | each parser reads its dumper's output back to the same value, or rejects it, clock formats always |
| ConfigStore.AssignSlot | daemon/x52d_config_parser.c:151-176 | an assignment sets its own field if accepted and no other |
| ConfigStore.AssignUntilSlot | daemon/x52d_config_parser.c:185-201 | a series that stops at a rejection completes if and only if each assignment is accepted |
| ConfigStore.DefaultsForget | daemon/x52d_config_parser.c:185-201 | setting the defaults succeeds and erases all earlier values |
| ConfigStore.DefaultsPrint | daemon/x52d_config_dump.c:30-91 | the defaults are printed as the table of keys has them, clock and date formats excepted |
| ConfigStore.LoadPrecedence | daemon/x52d_config.c:19-44 | each key holds the last accepted assignment of defaults, file and overrides; a load succeeds if and only if the file opens and every override is accepted |
| ConfigStore.SaveReadsBack | daemon/x52d_config_dump.c:96-139 | the printed lines of any stretch of keys are parsed to one call per key, in order, under its own section |
| Shipped.ShippedFileIsDefaults | daemon/x52d.conf:19-105 | a file with the settings of the installed one, and any comments, makes one call for each key and loads to the defaults, whatever was held before |
| Shipped.LongCommentIsObeyed | lib/inih/ini.c:97-241 | a comment, longer than the buffer, that switches the clock off |
| SaveLoad.SavedFileReadsBack | daemon/x52d_config_dump.c:96-139 | a saved file whose strings are one line each and fit the buffer is parsed to one call per key, in order, under its own section |
| SaveLoad.LoadedStringOneLine | daemon/x52d_config_parser.c:49-59 | no string that is loaded has more than one line |
| SaveLoad.OverlongIsLost | lib/inih/ini.c:97-241 | a string whose line is longer than the buffer never comes back |
| SaveLoad.SaveLoadInverseIff | daemon/x52d_config_dump.c:96-139 | for every configuration the daemon can hold: saving and loading over defaults gives it back if and only if clock formats are the default, LED states and date format known, and each string is trimmed, free of comment starts, one line, and with its key not longer than the buffer |
| SaveLoad.LongNameIsObeyed | daemon/x52d_config_parser.c:49-59 | a configuration of clean one-line strings that comes back with the clock switched off, because the end of a long name is read as an assignment |
| SaveLoad.TwentyFourHourIsLost | libx52/x52_stringify.c:35-38 | a configuration the daemon accepts and does not get back |
| Overrides.OverrideShape | daemon/x52d_config_parser.c:231-300 | which override strings are accepted, and how they are split, both directions |
| Overrides.Split | daemon/x52d_config_parser.c:231-300 | cutting a duplicate in place at its separators gives that result |
| Overrides.OverrideQueue.Save | daemon/x52d_config_parser.c:302-318 | appends to the linked queue, or leaves it as it was |
| Overrides.OverrideQueue.Clear | daemon/x52d_config_parser.c:351-365 | empties the queue, head and tail |
| Configuration.ConfigStruct.ProcessKv | daemon/x52d_config_parser.c:151-176 | the search through the keys is the specified assignment |
| Configuration.ConfigStruct.SetDefaults | daemon/x52d_config_parser.c:185-201 | always succeeds and leaves the default values |
| Configuration.ConfigStruct.LoadFile | daemon/x52d_config_parser.c:203-219 | fails only without a file; otherwise every call of the parser is made, rejected ones skipped |
| Configuration.ConfigStruct.ApplyOverrides | daemon/x52d_config_parser.c:320-349 | walks the queue in order up to the first rejected override |
| Configuration.ConfigStruct.SaveFile | daemon/x52d_config_dump.c:96-139 | writes each section header once, before its first key, and every key |
| Configuration.ConfigStruct.GetParam | daemon/x52d_config_dump.c:141-151 | finds the key up to case and prints its value |
| Configuration.SetChangesOneKey | daemon/x52d_config.c:61-83 | setting a key changes what that key reads as, to the dump of the parsed value, and what no other key reads as |
| Configuration.LoadForgets | daemon/x52d_config.c:19-44 | a reload does not depend on anything loaded or set before |
| Configuration.ConfigModule.Load | daemon/x52d_config.c:19-44 | the whole load, after which no override is left for a later one |
| Framing.UnframeFrame | daemon/x52d_comm_internal.c:108-127 | splitting undoes framing for every list of arguments, empty ones included |
| Framing.FrameUnframe | daemon/x52d_comm_internal.c:108-127 | framing undoes splitting for every terminated message |
| Framing.FormatCommand | daemon/x52d_comm_client.c:74-98 | the buffer holds the framed command, or the error that applies is returned |
| Framing.SplitArgs | daemon/x52d_comm_internal.c:108-127 | the pointers stored are the starts of the arguments, behind those already there, in an array with room for just these |
| Framing.ResponseStrings | daemon/x52d_command.c:63-92 | a reply is its type and a prefix of its arguments, framed, in under 1024 bytes |
| Framing.SendAndSplit | daemon/x52d_comm_client.c:84-97 | a command that fits arrives as the same arguments |
| Clients.FullMeansMax | daemon/x52d_client.c:25-61 | the table is full exactly at 63 clients, and there are never more |
| Clients.Init | daemon/x52d_client.c:18-23 | an empty table owns no client |
| Clients.Register | daemon/x52d_client.c:25-61 | a new client takes the first free slot; if there is none or it cannot be made nonblocking, its descriptor is closed and the table unchanged |
| Clients.Deregister | daemon/x52d_client.c:63-79 | a client leaves the table and its descriptor is closed; nobody else is touched |
| Clients.PollSet | daemon/x52d_client.c:92-125 | the poll set is the listener, the clients in table order, then empty entries |
| Clients.RoundEffect | daemon/x52d_client.c:127-146 | a round closes exactly the clients that hung up or failed, admits at most one, and serves exactly the other readable ones |
| Clients.ServedStaysOpen | daemon/x52d_client.c:127-146 | no client is served in the round that closes it |
| Clients.Handle | daemon/x52d_client.c:127-146 | the dispatch over the array has that effect |
| Clients.OwnershipOverRuns | daemon/x52d_client.c:18-146 | over every run of rounds the table entries are distinct and exactly the open client descriptors |

## Left out

- Masks are sets of bit positions 0 to 31: the code only sets, clears and tests single bits of its 32-bit words.
- The or of constant register indices, as in the request that clears a line, is written as a sum.
- Arrays embedded in a structure (display lines, timezones, clock formats, configuration fields) are sequence-valued
  fields, reassigned by the methods that change them.
- Runs.FreshRunCoherence: excludes vendor commands that a program issues itself, which bypass the shadow.
- Runs.LocalZoneTruncates: the computation for platforms whose broken-down time has no `tm_gmtoff` is left out.
- DeviceManager.DeviceManager.Round: treats a round as one step; nothing is claimed about the update flag under
  concurrency, which the code writes outside its lock. Reading the feature flag before taking the lock is part of
  the same critical section here. The text, time, date, shift and blink wrappers have the same form and are omitted.
- Device.Libx52.Connect: hotplug callbacks and `libx52_is_connected` polling for lost joysticks are not part of
  this model.
- CharLookup.Convert: for bytes that are no sequence of characters, whole or cut short, such as a stray
  continuation byte, the output is given by the specified reading of the tables only.
- CharMapGen.MapTable.AddToTable: values are bytes, and a code point without encoding is refused by a result where
  the script ends with an error.
- CharMapGen.MapTable.OutputTable: yields tables as values; their C text and the parsing of the mapping file
  (`parse_line`) are not modelled.
- Ini.Parser.ParseStream: compile-time options other than the default ones are left out.
- SaveLoad.SaveLoadInverseIff: gettext translation of the printed names is not modelled.
- Overrides.OverrideQueue.Save: a node holds its three strings by value instead of pointing into the duplicate.
- Framing.SplitArgs: the call in `x52d_recv_notification`, which passes an uninitialised count of slots, is not
  modelled.
- libusb, sockets, poll, files, threads and time functions appear as parameters with arbitrary results.
- Notification framing and receiving, formatted responses, the command dispatcher and logging commands.
- HID reports, mouse and joystick mapping, the command-line tools, the stub library, daemonization and build files.
- NULL arguments, which the types rule out, and failing memory allocation.
