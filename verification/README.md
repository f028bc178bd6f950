# Jumpscale installer core: a Dafny model

This project models the algorithms inside the Jumpscale installer and its core library, and proves what they promise.
`dafny verify dfyconfig.toml` checks all of it.

Where the original works step by step on arrays, dicts, files or a server, the model has the same loops and
assignments, in methods and classes, each proved against a function that says what the result is; the promises are
lemmas about those functions. Where the original only computes a value, the model is a function.

| files | what they model |
|---|---|
| `Mnemonic`, `MnemonicCodec`, `PhraseCheck`, `Numerals` | the BIP-39 codec (section "Generating the mnemonic"): a relation that states it, the big-integer encoder, the shift-mask decoder, the hexadecimal phrase check, and the positional arithmetic under all three |
| `LogWindow`, `LogHandler` | the log window with one process: ids, hash, dumped blocks, rotation, trimming |
| `LogProtocol`, `LogEvery`, `LogRuns`, `LogPacing`, `LogOvertaken` | the same with any number of processes on one Redis, as interleaved atomic steps, and how far they may drift apart |
| `Config`, `ConfigRoundTrip`, `ConfigFile`, `ConfigMeaning`, `ConfigCode`, `CharTables`, `Stripping`, `Strings` | the one-level config format, printer and parser, on texts and on files |
| `InstallState`, `MyEnv` | the install state and its write-through file |
| `Ham`, `GunGraph`, `GunClient` | conflict resolution as a join, and `ham_mix` as it is coded |
| `DockerPorts`, `DockerFactory` | the port range allocator under the container factory, error paths included |
| `Platforms` | the ancestor walk over the platform table |
| `DenseText` | the key normaliser |
| `Versions` | version texts as integers |
| `Serializer` | the tagged list serializer |

Parameters stand for what lies outside: SHA-256 is any function from byte strings to 32 bytes, the word list any
strictly sorted sequence of 2048 words without blanks, the test of a host port any predicate, the machine
clock any integer, the plain serializer any pair of partial functions where loading undoes dumping, a platform table
any without cycles. The Unicode data behind `upper`, `lower` and `int` are any tables that are right about ASCII, leave
white space and punctuation alone in upper case, have nothing else turn into those, and whose upper case is its own
upper case (`CharTables.Lawful`); so the conditions below on keys and strings hold for every character, not for ASCII
only.

## Where the code is not what its text says

The model follows the code in each of these.

- Rotation of the log archive starts at count + 2 files and deletes twelve of them; the comment says ten. With a
  configured count of ten or less it deletes every file, the block just written included (`LogWindow.NewestSurvives`,
  `LogWindow.ArchiveNeverEmptied`).
- With several processes a dump can miss a record that was logged. A bound on how far the counter may get past the calls
  in flight, their dumps included, rules that out exactly when it is at most 1000 (`LogPacing.SafePaceIff`). A bound on
  the records not yet stored does not help, however small (`LogOvertaken.OvertakenDumpRaises`).
- The config round trip through a file fails exactly on the dicts that `ConfigFile.FilePlain` excludes: keys that are
  not upper case, that are edged by white space, contain `=` or a newline or start with `#`; strings and list items with
  a newline, a `#`, or white space or a quote at an end; strings that contain `[` or read as a boolean word or an
  integer; list items with a comma; and a carriage return anywhere, which reading the file turns into a newline. Brackets
  inside list items do come back. A text given as content keeps its carriage returns (`ConfigRoundTrip.RoundTripIff`).
- `state_set` of a key with a carriage return inside leaves a state file that no longer loads
  (`InstallState.ReturnInKeyRaises`); `InstallState.FileSafe` says which keys are safe, and `InstallState.RunLoadsIff`
  after which runs the file loads.
- `state_reset` deletes the state file even in readonly mode (`InstallState.ReadonlyUnchanged`).
- `ham_mix` computes the verdict and overwrites all the same, so it does not converge: two changes commute exactly
  when they agree where they overlap (`GunGraph.MixCommutesIff`), and `GunGraph.ObeysVerdictsIff` says when overwriting
  is what the verdicts ask for. The convergence results of `Ham` are about the step that obeys the verdict.
- A field called `>` makes `put` store its state where the node's state table was; the next response on that soul then
  raises (`GunClientCode.TablesAgreeIff`, `GunClientCode.LostTableRaises`).
- An update beyond the machine clock is dropped, not kept for later (`Ham.DeferredIsLost`); `Ham.NothingLostIff` says
  when that does no harm.
- After `container_get` failed for want of a port range, deleting and getting that container again leaves an entry
  without config, on which every later allocation raises (`DockerPorts.FailureSpreads`).
- The docstring of `text_strip_to_ascii_dense` says that `:` and `,` become `_`; they are dropped
  (`DenseText.KeptCons`).
- `strToVersionInt` orders the versions of one length only while components stay below 1000
  (`Versions.OrderEmbeddedIff`), and those of different lengths only when, besides, none has more components than
  `minDigits` (`Versions.OrderAcrossLengthsIff`): past that, a longer version that does not start with zero comes out
  above every shorter one (`Versions.LongerAbove`).
- `_unserialize` takes plain lists shaped like its own tags for objects, and bytes that happen to load for what they
  load to (`Serializer.PlainReinterpretedIff`, `Serializer.Faithful`).

## Model

| member | source | states |
|---|---|---|
| Mnemonic.EntropyOfMnemonic | install/threesdk/InstallTools.py:3667-3723 | Decoding what the encoder returned gives the data back, for every legal length, leading zero bytes included |
| Mnemonic.MnemonicOfEntropy | install/threesdk/InstallTools.py:3667-3723 | Encoding what the decoder accepted gives the same words back |
| Mnemonic.AcceptedIffEncodes | install/threesdk/InstallTools.py:3685-3723 | The decoder returns some data exactly when BIP-39, stated on its own as a relation, pairs the words with that data; so it rejects exactly on a wrong count, an unlisted word or a wrong checksum |
| Mnemonic.EncodesIff | install/threesdk/InstallTools.py:3667-3723 | What that relation says, bit by bit: bit k of the words' places in the list, eleven bits to a word, is bit k of the data followed by the first bits of their digest, one for each four bytes; for the five data lengths |
| Mnemonic.MnemonicEncodes | install/threesdk/InstallTools.py:3667-3683 | What the encoder returns stands in the BIP-39 relation to its argument |
| Mnemonic.EncodesFunctional | install/threesdk/InstallTools.py:3678-3683 | Data determine their phrase |
| Mnemonic.DataSizes | install/threesdk/InstallTools.py:3676-3679 | For the five legal data lengths the checksum makes the bit count exactly 11 times a legal word count |
| Mnemonic.WordSizes | install/threesdk/InstallTools.py:3708-3711 | For the five legal word counts the checksum and entropy bit counts come out of the divisions by 33 and 8 without a rest, one data length for each |
| Mnemonic.CheckedBytesIff | install/threesdk/InstallTools.py:3708-3723 | The checksum test passes with some data exactly when the bits are the bits of these data followed by the leading digest bits |
| Mnemonic.EntropyOfListed | install/threesdk/InstallTools.py:3699-3723 | Once the count is legal and every word listed, only the checksum decides |
| Mnemonic.EncodingRefused | install/threesdk/InstallTools.py:3667-3683 | The encoder returns a phrase exactly for data of 16, 20, 24, 28 or 32 bytes, and otherwise raises the length error with that length |
| Mnemonic.DecodingRefused | install/threesdk/InstallTools.py:3685-3723 | Which of its three errors the decoder raises, told from the words: a count other than 12, 15, 18, 21, 24; else the first word not in the list; else, when no data go with the words, the checksum |
| Mnemonic.DecodingErrors | install/threesdk/InstallTools.py:3699-3704 | With a legal count and some unlisted word, the error names the first unlisted word |
| Mnemonic.PhraseRoundTrip | install/threesdk/InstallTools.py:3682-3688 | The phrase as one text: splitting at blanks and decoding gives the data back |
| Mnemonic.PhraseRecovered | install/threesdk/InstallTools.py:3682-3688 | Any accepted text is, character by character, the phrase the encoder returns |
| MnemonicCodec.BisectLeft | install/threesdk/InstallTools.py:181 | The insertion point: everything before it is smaller, nothing from it on is |
| MnemonicCodec.BinarySearch | install/threesdk/InstallTools.py:179-182 | On a sorted list, what a linear search finds, -1 when the word is absent |
| MnemonicCodec.HexValue | install/threesdk/InstallTools.py:3675 | The number read from the hexadecimal text is the number of the concatenated byte bits |
| MnemonicCodec.BinaryText | install/threesdk/InstallTools.py:3675 | The big integer, printed in binary and filled with zeros, is the bit text of the bytes |
| MnemonicCodec.WordsOfText | install/threesdk/InstallTools.py:3678-3681 | One word for every slice of eleven bits, at the index the slice spells |
| MnemonicCodec.ToMnemonic | install/threesdk/InstallTools.py:3667-3683 | The encoder returns the BIP-39 phrase, or the length error |
| MnemonicCodec.SetWordBits | install/threesdk/InstallTools.py:3705-3706 | Masking a word index with the eleven one-bit masks writes its fixed-width binary digits and leaves the earlier bits alone |
| MnemonicCodec.MaskReadsDigit | install/threesdk/InstallTools.py:3706 | A one-bit mask is non-zero exactly where the binary numeral has a 1 |
| MnemonicCodec.FillBits | install/threesdk/InstallTools.py:3699-3707 | The lookup loop fills the array with the digits of all word indices, or names the first unlisted word |
| MnemonicCodec.PackByte | install/threesdk/InstallTools.py:3713-3715 | Or-ing in eight masks makes the byte those eight bits spell; the other bytes stay |
| MnemonicCodec.PackBytes | install/threesdk/InstallTools.py:3711-3715 | The packing loops read the bits eight at a time |
| MnemonicCodec.HashBits | install/threesdk/InstallTools.py:3718 | Masking every digest byte lists the digest's bits |
| MnemonicCodec.ChecksumMatches | install/threesdk/InstallTools.py:3720-3722 | The comparison loop finds a difference exactly when the checksum bits differ from the first digest bits |
| MnemonicCodec.CheckAndPack | install/threesdk/InstallTools.py:3708-3723 | Packing and comparing decides what the specification's checksum test decides |
| MnemonicCodec.ToEntropy | install/threesdk/InstallTools.py:3685-3723 | The decoder returns the data of the phrase, or the first of the three errors: count, unlisted word, checksum |
| PhraseCheck.JoinedIndices | JumpscaleCore/data/encryption/mnemonic/mnemonic.py:101-105 | Linear lookup and eleven binary digits per word: the word bits, or a failure exactly on an unlisted word |
| PhraseCheck.BytesThroughHex | JumpscaleCore/data/encryption/mnemonic/mnemonic.py:109 | Bits turned into a number, a filled hexadecimal text and bytes are the packed bits |
| PhraseCheck.ChecksumTextMatches | JumpscaleCore/data/encryption/mnemonic/mnemonic.py:106-111 | Comparing the last characters of the text decides the checksum |
| PhraseCheck.Check | JumpscaleCore/data/encryption/mnemonic/mnemonic.py:96-111 | The check accepts exactly the phrases the decoder accepts, though it computes everything another way |
| LogWindow.ChunkedDeletion | install/threesdk/InstallTools.py:769-772 | Deleting a list of keys chunk by chunk deletes the whole list, for any chunk size |
| LogWindow.ChunksShape | install/threesdk/InstallTools.py:769-772 | Chunk i starts at i times the size; every chunk but the last has the size, the last is non-empty and ends the list |
| LogWindow.DumpFailsIff | install/threesdk/InstallTools.py:878-911 | A dump of any hash raises exactly when msgpack is there and a record of its block is absent or empty; it names the first such id and leaves hash and archive alone; else the keys above the block stay, and no others |
| LogWindow.WriteReplaces | install/threesdk/InstallTools.py:889-893 | Writing a block again replaces its file, makes it the newest, and leaves the others |
| LogWindow.WindowStep | install/threesdk/InstallTools.py:807-837 | One call moves the window on by one record and raises nothing |
| LogWindow.WindowAlways | install/threesdk/InstallTools.py:807-837 | After any n calls the hash holds exactly the ids in (max(0, n div 1000 - 1) * 1000, n] under their records, and the archive the newest part of the blocks before |
| LogWindow.WrittenAlways | install/threesdk/InstallTools.py:878-893 | With msgpack every dump of every run writes its block: the files written are exactly the blocks that tile the ids before the hash, in order |
| LogWindow.HashBounded | install/threesdk/InstallTools.py:904-911 | The hash always stays below 2000 records, and its exact size |
| LogWindow.EveryIdOnce | install/threesdk/InstallTools.py:807-911 | Every id is in the hash under its record; or, with msgpack, a dump of the run wrote its record, at its place, into one file, and no other written file covers it |
| LogWindow.RotateKeeps | install/threesdk/InstallTools.py:895-902 | Rotation keeps the newest files; how many, depends on the configured count alone |
| LogWindow.RetainedInterval | install/threesdk/InstallTools.py:895-911 | With msgpack there are at most count + 1 files; files and hash hold one contiguous interval ending at n, of min(n, (count - 9) * 1000) ids at least when the count is above ten |
| LogWindow.NewestSurvives | install/threesdk/InstallTools.py:895-902 | A rotation keeps the newest block exactly when it deletes nothing or the count is above ten; one that starts at count + 2 files deletes twelve |
| LogWindow.ArchiveNeverEmptied | install/threesdk/InstallTools.py:895-902 | After every run the block its last dump wrote is the newest file in the archive, exactly when the configured count is above ten |
| LogHandling.LogHandler.constructor | install/threesdk/InstallTools.py:781-788 | A new handler has seen no id, on an empty server |
| LogHandling.LogHandler.RedisGet | install/threesdk/InstallTools.py:853-876 | A record, or the missing-log error exactly when it is absent or empty |
| LogHandling.LogHandler.ReadAll | install/threesdk/InstallTools.py:883-888 | The reading loop returns the block, or the first missing id |
| LogHandling.LogHandler.TrimHash | install/threesdk/InstallTools.py:904-911 | Collecting the old keys and deleting them a hundred at a time leaves exactly the keys above the block |
| LogHandling.LogHandler.DataContainerDump | install/threesdk/InstallTools.py:878-911 | A dump changes hash and archive as specified; a missing record raises with nothing changed |
| LogHandling.LogHandler.HandleLog | install/threesdk/InstallTools.py:807-837 | The whole call: nothing without a database; else counter, last id, hash and archive as specified |
| LogHandling.LogAll | install/threesdk/InstallTools.py:807-911 | A process that logs any non-empty records ends in the window state and never sees an error |
| LogProtocol.IdsDistinct | JumpscaleInstallLib/core/LogHandler.py:60-63 | Over every interleaving two calls never get the same id |
| LogProtocol.OwnershipAlways | JumpscaleInstallLib/core/LogHandler.py:60-74 | Over every interleaving each id belongs to one process, which alone stores it and alone dumps it |
| LogProtocol.OneDumper | JumpscaleInstallLib/core/LogHandler.py:71-74 | A stored multiple of 1000 from 2000 up is dumped by exactly one process, any other id by none |
| LogEvery.DeletedIsCovered | JumpscaleInstallLib/core/LogHandler.py:115-148 | Over every interleaving, paced or not, each deleted id lies at or below a block that some dump has archived |
| LogEvery.StoredIsKept | JumpscaleInstallLib/core/LogHandler.py:60-148 | Over every interleaving each stored record is in the hash as it was handed out, or lies at or below an archived block |
| LogEvery.FilesHoldBlocks | JumpscaleInstallLib/core/LogHandler.py:90-113 | Over every interleaving each archived file is one whole block and holds the records of its thousand ids, in order |
| LogEvery.RaisedIsOver | JumpscaleInstallLib/core/LogHandler.py:90-113 | Over every interleaving a dump that raised has archived nothing, and its call is over: no process goes on to list or delete for it |
| LogEvery.EndedDumpTrims | JumpscaleInstallLib/core/LogHandler.py:135-148 | Over every interleaving a dump that listed the keys and has ended leaves none of the keys it found at or below its block, whatever ran in between |
| LogProtocol.SafeAlways | JumpscaleInstallLib/core/LogHandler.py:60-148 | The inductive invariant of all runs in which the counter is never 1000 or more past a call still in flight |
| LogProtocol.PacedNeverRaises | JumpscaleInstallLib/core/LogHandler.py:90-148 | In such a run no dump ever raises the missing-log error |
| LogPacing.SafePaceIff | JumpscaleInstallLib/core/LogHandler.py:60-148 | A bound k on how far the counter may get past the calls in flight keeps every run free of the missing-log error exactly when k is at most 1000 |
| LogPacing.HeldIdRaises | JumpscaleInstallLib/core/LogHandler.py:60-113 | With the bound 1001 there is a run that raises: one process holds id 1000 unstored, another reaches 2000 and dumps |
| LogProtocol.RecordsConserved | JumpscaleInstallLib/core/LogHandler.py:60-148 | In such a run each id whose record was handed out is, at every moment, about to be stored, in the hash, or at its place in its archived block |
| LogProtocol.QuiescentIsSequential | JumpscaleInstallLib/core/LogHandler.py:44-148 | When all processes of such a run are idle, the server and the files are what one process logging the same records in id order leaves behind |
| LogOvertaken.OvertakenDumpRaises | JumpscaleInstallLib/core/LogHandler.py:71-148 | A run in which every record is stored at once and a dump still raises, because a later dump overtook it: pacing must count a call as in flight until its dump has ended |
| ConfigFile.FileRoundTripIff | install/threesdk/InstallTools.py:3586-3660 | For every dict with distinct keys: saving it to a file and loading the file gives the same dict in the same order exactly when every entry is plain and has no carriage return |
| ConfigFile.FileSavedRead | install/threesdk/InstallTools.py:3586-3660 | What exactly is read back from the file of any dict that loading could have made: comment-like keys vanish, values are reread |
| ConfigFile.NewlinesRead | install/threesdk/InstallTools.py:1724-1729 | Reading a file in text mode leaves no carriage return, and changes nothing exactly when there is none |
| ConfigFile.NewlinesBreak | install/threesdk/InstallTools.py:1724-1729 | A carriage return, alone or with a newline behind it, comes back as one newline |
| ConfigFile.LoadedReturn | install/threesdk/InstallTools.py:3586-3636 | Nothing loaded from a file has a carriage return in it |
| ConfigFile.BrokenLine | install/threesdk/InstallTools.py:3588-3612 | A carriage return in front of the equals sign ends the line there, and loading raises on it |
| ConfigRoundTrip.RoundTripIff | install/threesdk/InstallTools.py:3603-3660 | For every dict with distinct keys: loading the saved text, given as content, gives the same dict in the same order exactly when every entry is plain, a condition on its characters |
| ConfigRoundTrip.LoadSaved | install/threesdk/InstallTools.py:3603-3660 | What exactly is read back from the saved text given as content when it is not the same |
| ConfigRoundTrip.LoadIsLoadable | install/threesdk/InstallTools.py:3606-3636 | Whatever text was loaded, the resulting keys and values have the stripped form saving can write line by line |
| ConfigRoundTrip.ValueReread | install/threesdk/InstallTools.py:3613-3660 | One printed value parses to the reread value |
| ConfigRoundTrip.ParseIntText | install/threesdk/InstallTools.py:3628-3655 | A printed integer parses to itself, sign included |
| ConfigMeaning.BoolWordsIff | install/threesdk/InstallTools.py:3618-3621 | A text is read as False exactly when it is false, n or no in any case, and as True exactly when it is true, y or yes |
| ConfigMeaning.ParseIntIff | install/threesdk/InstallTools.py:3628-3631 | A text is an integer exactly when it is digits with single underscores between them and at most one sign in front; the value is the base-ten value of the digits, signed |
| ConfigMeaning.ValueKinds | install/threesdk/InstallTools.py:3618-3631 | Boolean words come first, then texts with an opening bracket, then integers; everything else is the string it is |
| ConfigMeaning.CleanSpaces | install/threesdk/InstallTools.py:3617 | White space around a bare value goes |
| ConfigMeaning.CleanSingle | install/threesdk/InstallTools.py:3617 | A layer of single quotes goes, with the white space on both sides of it |
| ConfigMeaning.CleanDouble | install/threesdk/InstallTools.py:3617 | A layer of double quotes goes, and single quotes inside it stay |
| ConfigMeaning.CleanBoth | install/threesdk/InstallTools.py:3617 | Double quotes inside single ones go too |
| ConfigMeaning.LineKinds | install/threesdk/InstallTools.py:3606-3612 | A line is skipped exactly when it is blank or starts with #, and refused exactly when it is not skipped and has no equals sign |
| ConfigMeaning.LineMeans | install/threesdk/InstallTools.py:3612-3617 | The first equals sign ends the key, and the first # behind it the value |
| ConfigMeaning.ItemsConcat | install/threesdk/InstallTools.py:3622-3626 | The parts of a list are read one by one |
| ConfigMeaning.OneItem | install/threesdk/InstallTools.py:3622-3626 | A part that is blank is left out; any other becomes what peeling leaves of it |
| ConfigMeaning.ListMeans | install/threesdk/InstallTools.py:3622-3626 | Parts in brackets, with commas between them, are read as the list of the items they become |
| ConfigMeaning.LoadRefused | install/threesdk/InstallTools.py:3606-3612 | Loading raises on the first line that is refused, and succeeds when there is none |
| ConfigMeaning.LoadLookup | install/threesdk/InstallTools.py:3606-3636 | Of several lines with one key, the last one counts |
| ConfigMeaning.SaveConcat | install/threesdk/InstallTools.py:3642-3660 | Entries are printed one after the other |
| ConfigMeaning.SavedEntry | install/threesdk/InstallTools.py:3642-3660 | What is printed for one entry of each kind: True and False, a text that reads as the integer, the quoted string, the bracketed items with commas between them |
| ConfigCode.PrintList | install/threesdk/InstallTools.py:3645-3651 | Accumulating quoted items and stripping the last comma prints the list |
| ConfigCode.ConfigSave | install/threesdk/InstallTools.py:3639-3660 | The printing loop writes one line per entry, in order, key in upper case |
| ConfigCode.ParseText | install/threesdk/InstallTools.py:3618-3631 | The branches and the item loop compute the value that ConfigMeaning.ValueKinds, BoolWordsIff and ListMeans describe |
| ConfigCode.ConfigLoad | install/threesdk/InstallTools.py:3606-3636 | The line loop gives the dict of all lines, later ones overriding earlier ones, or the error of the first line without an equals sign |
| InstallState.KeyGetIdempotent | install/threesdk/InstallTools.py:4250-4256 | Normalising a key twice is normalising it once |
| InstallState.KeyGetCuts | install/threesdk/InstallTools.py:4250-4256 | Whatever follows the first of the four separators is cut off, and what is before it is put in upper case |
| InstallState.KeyChars | install/threesdk/InstallTools.py:4250-4256 | A normalised key is its own upper case and has none of the four separators |
| InstallState.SetConsistentIff | install/threesdk/InstallTools.py:4264-4269 | After setting a key, loading the file gives the state in memory exactly when the file can hold the key |
| InstallState.ReturnInKeyRaises | install/threesdk/InstallTools.py:4264-4269 | Setting the key a, carriage return, b on an empty state writes a file on which the next load raises |
| InstallState.RemovalConsistent | install/threesdk/InstallTools.py:4271-4295 | Deletes, prefix deletes and resets always keep memory and file together |
| InstallState.RunConsistent | install/threesdk/InstallTools.py:4233-4295 | Over every run of file-safe operations memory is what would be loaded back, and lookups answer from a plain set of normalised keys |
| InstallState.RunLoadsIff | install/threesdk/InstallTools.py:4233-4295 | After every run of any operations on any keys, memory is what would be loaded back exactly when each key marked in the end fits the file |
| InstallState.ReadonlyUnchanged | install/threesdk/InstallTools.py:4245-4295 | In readonly mode every operation changes nothing, but for a reset, which deletes the file and forgets the state |
| InstallState.SetThenGet | install/threesdk/InstallTools.py:4258-4277 | How a lookup answers right after a set and right after a delete, for any pair of keys |
| InstallState.SetEntries | install/threesdk/InstallTools.py:4264-4269 | A set marks its key as true and touches no entry of another key |
| InstallState.DeleteEntries | install/threesdk/InstallTools.py:4271-4277 | A delete takes out its key and nothing else |
| InstallState.DeletePrefixEntries | install/threesdk/InstallTools.py:4279-4288 | A prefix delete takes out the keys with the upper-cased prefix and nothing else |
| InstallState.NothingToDelete | install/threesdk/InstallTools.py:4271-4288 | A delete, by key or by prefix, that finds nothing does not write the file |
| InstallState.SharedFile | install/threesdk/InstallTools.py:4233-4262 | Another environment on the same file, readonly or not and whatever it held, loads the same state and answers the same |
| MyEnvironment.MyEnv.StateLoad | install/threesdk/InstallTools.py:4233-4243 | Loading: from the file; from a new empty file; or nothing, in readonly mode |
| MyEnvironment.MyEnv.StateSet | install/threesdk/InstallTools.py:4264-4269 | Marks the normalised key and writes the file, unless readonly |
| MyEnvironment.MyEnv.StateDelete | install/threesdk/InstallTools.py:4271-4277 | Unmarks the normalised key, and writes the file only when the key was there, unless readonly |
| MyEnvironment.MyEnv.PopMatching | install/threesdk/InstallTools.py:4283-4288 | The loop over a copy of the keys leaves exactly the entries without the prefix, and file and memory agree after each turn |
| MyEnvironment.MyEnv.StatesDelete | install/threesdk/InstallTools.py:4279-4288 | Prefix delete, popping and saving one key at a time, does what dropping all matching entries at once does |
| MyEnvironment.MyEnv.StateReset | install/threesdk/InstallTools.py:4290-4295 | Reset deletes the file and loads again, which leaves an empty file, or none in readonly mode |
| Ham.StepIsMaxIff | JumpscaleCore/clients/gedis_backends/utils.py:26-57 | Taking the incoming update when the verdict says so computes the later of the two exactly when a later one is not beyond the machine clock |
| Ham.MaxJoin | JumpscaleCore/clients/gedis_backends/utils.py:41-57 | The later of two updates, by state and then text, is idempotent, commutative and associative |
| Ham.LaterTotal | JumpscaleCore/clients/gedis_backends/utils.py:41-57 | Any two different updates are ordered, one way only |
| Ham.VerdictSymmetric | JumpscaleCore/clients/gedis_backends/utils.py:41-57 | With the roles exchanged the verdict says the opposite; it says 'state' exactly on equal updates |
| Ham.VerdictIff | JumpscaleCore/clients/gedis_backends/utils.py:41-57 | Which of the five verdicts comes when, told from the clock and the order of updates: beyond the clock, of an older state, equal, earlier at the same state, later |
| Ham.MissingIsZero | JumpscaleCore/clients/gedis_backends/utils.py:26-39 | An absent state counts as state 0, on either side |
| Ham.DeliverLatest | JumpscaleCore/clients/gedis_backends/utils.py:26-57 | Whatever the arrivals and clocks, a replica ends with the latest of its start and the updates it accepted |
| Ham.Converge | JumpscaleCore/clients/gedis_backends/utils.py:26-57 | Replicas that accepted the same set of updates agree, whatever the order and the repetitions |
| Ham.ConvergeUndeferred | JumpscaleCore/clients/gedis_backends/utils.py:26-57 | In particular replicas that received the same updates, when none is beyond the clock it meets |
| Ham.DeferredIsLost | JumpscaleCore/clients/gedis_backends/utils.py:41-42 | A deferred update has no effect, and a replica with a later clock then differs |
| Ham.NothingLostIff | JumpscaleCore/clients/gedis_backends/utils.py:26-57 | Whatever it starts from, a replica ends with the latest of all it received exactly when each received update was accepted or is not later than one that was |
| Ham.FirstWriteIff | JumpscaleCore/clients/gedis_backends/utils.py:26-57 | A first write, judged against state 0 and value 0, is taken exactly when it is later and not beyond the clock |
| GunGraph.MixOverwrites | JumpscaleCore/clients/gedis_backends/utils.py:61-83 | Each key of a change ends in graph and diff with the change's value and state |
| GunGraph.MixFrame | JumpscaleCore/clients/gedis_backends/utils.py:61-83 | The diff holds nothing else; no other soul changes, and on a touched one no other field and no mark, but for the entry # of a new node, which names the soul |
| GunGraph.MixDiffAgain | JumpscaleCore/clients/gedis_backends/utils.py:61-83 | Mixing the returned diff in again leaves the graph unchanged |
| GunGraph.MixCommutesIff | JumpscaleCore/clients/gedis_backends/utils.py:61-83 | Two changes can be mixed in either order with the same result exactly when they agree where they overlap |
| GunGraph.RaisesIff | JumpscaleCore/clients/gedis_backends/utils.py:9-18 | Mixing raises exactly when some field is received for a stored node whose state table is lost |
| GunGraph.VerdictIgnored | JumpscaleCore/clients/gedis_backends/utils.py:72-82 | A field is overwritten even where the verdict is to keep the current one |
| GunGraph.VerdictForIff | JumpscaleCore/clients/gedis_backends/utils.py:68-72 | The verdict for a field compares it with what is stored, or with state 0 and value 0 where nothing is |
| GunGraph.ObeysVerdictsIff | JumpscaleCore/clients/gedis_backends/utils.py:72-82 | Mixing does what obeying the verdicts would do exactly when each field has the verdict to take it or is stored already with the same value and state |
| GunClientCode.GunClient.MixSoul | JumpscaleCore/clients/gedis_backends/utils.py:65-82 | The inner loop overwrites every field of one node, for the keys in any order, or raises on a lost table with nothing changed |
| GunClientCode.GunClient.HamMix | JumpscaleCore/clients/gedis_backends/utils.py:61-83 | The mixing loops overwrite every field of the change and return the change as diff, for souls and keys in any order; they raise exactly when a touched node has lost its table, some souls being mixed by then |
| GunClientCode.GunClient.PutDiff | JumpscaleCore/clients/gedis_backends/GunClient.py:108-112 | The put loops set every field of the diff and its state, for souls and keys in any order |
| GunClientCode.GunClient.Receive | JumpscaleCore/clients/gedis_backends/GunClient.py:102-112 | Mixing a response and putting its diff leaves the backend with all its fields and their states, unless the mixing raises |
| GunClientCode.ReceivedKeys | JumpscaleCore/clients/gedis_backends/GunClient.py:102-112 | Afterwards each received key has its value and state in the node; the state table has it too, and is lost exactly when a field is called > |
| GunClientCode.ReceivedFrame | JumpscaleCore/clients/gedis_backends/GunClient.py:102-112 | A response touches nothing but the keys it has |
| GunClientCode.LostTableRaises | JumpscaleCore/clients/gedis_backends/GunClient.py:29-34 | A node that received a field called > makes the next response on its soul raise |
| GunClientCode.TablesAgreeIff | JumpscaleCore/clients/gedis_backends/GunClient.py:102-112 | Over any number of responses from an empty backend: none raises and the two state tables agree, exactly when no field in any response is called > |
| DockerPorts.RunLoaded | install/threesdk/InstallTools.py:5143-5176 | Over every run of creates, deletes and delete-then-recreates, failing ones included, the indices stay distinct, within 0..49 and equal to those on disk |
| DockerPorts.NewIndexIsLeast | install/threesdk/InstallTools.py:5371-5386 | A new container gets the least index that no other container has and no server answers on, in memory and on disk |
| DockerPorts.NewFailsIff | install/threesdk/InstallTools.py:5371-5388 | Creation fails exactly when every one of the fifty indices is taken or answering, or some registered container has no config |
| DockerPorts.LeastFreeIsLeast | install/threesdk/InstallTools.py:5379-5386 | The search loop's result: free and least, or none is free |
| DockerPorts.RecreateKeepsIndex | install/threesdk/InstallTools.py:5158-5176 | Delete-then-recreate changes nothing: the container keeps its index |
| DockerPorts.FailureSpreads | install/threesdk/InstallTools.py:5158-5176 | After a failed creation, recreating and getting that name again leaves an entry without config, from which on no new container can be created |
| DockerPorts.GetHealthyIff | install/threesdk/InstallTools.py:5154-5176 | From a factory in which every container and every file has its index, a get leaves it so exactly when it does not run out of indices |
| DockerPorts.GetAnswers | install/threesdk/InstallTools.py:5154-5176 | What a get that succeeds answers, in every branch: the port range the container is registered with afterwards; the one it was registered or stored with before; with everything loaded, the one on disk |
| DockerPorts.GetFrame | install/threesdk/InstallTools.py:5154-5176 | No get touches another container, in memory or on disk |
| DockerPorts.GetErrors | install/threesdk/InstallTools.py:5154-5176 | Which error comes when: exactly one condition on name, registry and disk for each |
| DockerPorts.GetErrorEffects | install/threesdk/InstallTools.py:5154-5176 | What each failed get leaves behind: everything as it was, or its container half made |
| DockerPorts.DeleteAnswers | install/threesdk/InstallTools.py:5143-5152 | When a delete raises and what it removes; refused or absent, nothing changes |
| DockerPorts.RunHealthy | install/threesdk/InstallTools.py:5143-5176 | A run in which no get runs out of indices leaves no container and no file without one |
| DockerPorts.DeletedIndexIsReused | install/threesdk/InstallTools.py:5143-5176 | A delete removes the container from registry and disk and nothing else; with no server on its port, the next new container gets that index or a lower one |
| DockerPorts.PortsWithinContainer | install/threesdk/InstallTools.py:5446-5459 | The ten host ports of one container are different |
| DockerPorts.PortsOfIndex | install/threesdk/InstallTools.py:5446-5459 | Which host ports an index means; ssh comes in on the one the allocator probed |
| DockerPorts.PortsDisjointIff | install/threesdk/InstallTools.py:5446-5459 | No two containers ever share a host port exactly when at most a hundred indices are used |
| DockerFactoryCode.DockerFactory.ExistingPorts | install/threesdk/InstallTools.py:5372-5377 | The collecting loop gathers exactly the other containers' indices, or stops at a container without config |
| DockerFactoryCode.DockerFactory.FindPortRange | install/threesdk/InstallTools.py:5371-5388 | The search gives the least free index of fifty, or the error, also when some container has no config |
| DockerFactoryCode.DockerFactory.NewContainer | install/threesdk/InstallTools.py:5485-5501 | A container is registered before anything can fail, then takes the index on disk or the least free one |
| DockerFactoryCode.DockerFactory.ContainerGet | install/threesdk/InstallTools.py:5154-5176 | Getting returns the registered container, or constructs one; with the delete flag it drops the old one first and writes its config back; each error leaves exactly the specified registry and disk behind |
| DockerFactoryCode.DockerFactory.ContainerDelete | install/threesdk/InstallTools.py:5143-5152 | Deleting drops the container from registry and disk; a short name or an entry without config raises with nothing changed |
| Platforms.Walk | JumpscaleCore/core/PlatformTypes.py:80-86 | The recursive walk ends on an acyclic table and appends the ancestors in the order of the paths that lead to them, each where it is met first, although it walks listed ones again |
| Platforms.WalkLists | JumpscaleCore/core/PlatformTypes.py:80-86 | What that adds are exactly the ancestors not yet listed, each once, behind the listed ones |
| Platforms.AcyclicIff | JumpscaleCore/core/PlatformTypes.py:24-86 | The tables the walk is proved for are exactly those in which no platform reaches itself by a non-empty path |
| Platforms.GetParents | JumpscaleCore/core/PlatformTypes.py:75-78 | The list starts with the platform, has no duplicates, holds exactly what the platform reaches, and is in the order of the walk |
| Platforms.PlatformTypes | JumpscaleCore/core/PlatformTypes.py:116-121 | The same without empty names |
| Platforms.HasParent | JumpscaleCore/core/PlatformTypes.py:240-241 | has_parent is reachability |
| Platforms.CheckMatch | JumpscaleCore/core/PlatformTypes.py:218-229 | Some comma-separated name, stripped and lowered, is reachable |
| Platforms.MatchesJoined | JumpscaleCore/core/PlatformTypes.py:218-229 | Names with commas between them match exactly when one of them does |
| Platforms.NamedPart | JumpscaleCore/core/PlatformTypes.py:218-229 | White space around a name and the case of its letters do not matter |
| Platforms.BlankPart | JumpscaleCore/core/PlatformTypes.py:218-229 | A blank name never matches |
| Platforms.ReachesAntisymmetric | JumpscaleCore/core/PlatformTypes.py:75-86 | On an acyclic table two platforms that are ancestors of each other are the same |
| DenseText.KeptCons | install/threesdk/InstallTools.py:2033-2055 | What the six passes over the text make of a character does not depend on its neighbours |
| DenseText.KeptAscii | install/threesdk/InstallTools.py:2033-2055 | What they make of each ASCII character: letters lowered, digits, dots and underscores kept, nine punctuation marks turned into underscores, the rest dropped |
| DenseText.CollapseReplaced | install/threesdk/InstallTools.py:2056-2057 | A pass of non-overlapping replacement does not change what the runs collapse to |
| DenseText.ReplacePairsShrinks | install/threesdk/InstallTools.py:2056-2057 | Such a pass shortens the text whenever the loop guard holds, so the loop ends |
| DenseText.StripToAsciiDense | install/threesdk/InstallTools.py:2023-2059 | The repeated replacement ends, and gives what one pass over the runs gives |
| DenseText.DenseIsDense | install/threesdk/InstallTools.py:2023-2059 | The result uses only a-z, 0-9, dot and underscore, has no double and no trailing underscore |
| DenseText.DenseFixedIff | install/threesdk/InstallTools.py:2023-2059 | The texts left unchanged are exactly those of this form |
| DenseText.DenseTwice | install/threesdk/InstallTools.py:2023-2059 | Normalising twice is normalising once |
| DenseText.DenseIsWords | install/threesdk/InstallTools.py:2056-2059 | The result is the words between underscores, joined by single underscores: no loop, no replacement |
| DenseText.SameKeyIff | install/threesdk/InstallTools.py:2023-2059 | Two texts get the same key exactly when their words agree |
| Versions.StrToVersionInt | JumpscaleCore/core/Text.py:236-253 | The padding, reversing and summing loops give the weighed sum of the components, or raise on the last component that is no integer |
| Versions.OrderEmbeddedIff | JumpscaleCore/core/Text.py:247-253 | For versions of one length, two or more, with components below a bound, integer order is version order exactly when the bound is at most 1000 |
| Versions.OrderEmbedded | JumpscaleCore/core/Text.py:247-253 | For versions of one length with components below 1000 the integers compare as the versions do |
| Versions.ComponentsReadBackIff | JumpscaleCore/core/Text.py:247-253 | Repeated division by 1000 gives the components back exactly when each is below 1000 |
| Versions.CarryConfuses | JumpscaleCore/core/Text.py:247-253 | A component of 1000 makes two different versions one integer, at any place |
| Versions.LongerAbove | JumpscaleCore/core/Text.py:245-253 | A longer version with a non-zero first component is above every shorter one |
| Versions.OrderAcrossLengthsIff | JumpscaleCore/core/Text.py:236-253 | Versions of up to some number of components, two or more, of whatever lengths, have integers in the order of the versions exactly when that number is at most minDigits |
| Versions.PrintedVersion | JumpscaleCore/core/Text.py:236-253 | A printed version of one or more components is read as those components, with zeros appended up to the minimum |
| Versions.ThreeSlots | JumpscaleCore/core/Text.py:236-253 | With three digits the components have weights 1000000, 1000 and 1, as in 3.2.1 for 3002001 and 3 for 3000000 |
| Versions.VersionMeans | JumpscaleCore/core/Text.py:236-253 | Components with dots between them, or with commas, make the weighed sum of what they read as, zeros appended up to the minimum |
| Versions.VersionRefused | JumpscaleCore/core/Text.py:236-253 | The last component that does not read as an integer is the one the text is refused for |
| Versions.SpacedComponent | JumpscaleCore/core/Text.py:250 | White space around a component does not matter |
| Serializer.SerializeList | JumpscaleCore/me/EncryptorTools.py:80-105 | The loop returns the dump of the marked items, or the error of the first item it cannot mark |
| Serializer.UnserializeData | JumpscaleCore/me/EncryptorTools.py:107-131 | The loop returns all items read back, or the error of the first bad object; a single value is read like an item |
| Serializer.ItemRoundTripIff | JumpscaleCore/me/EncryptorTools.py:18-78 | One item comes back as it was exactly when it is faithful, a condition on the item and the registered schemas |
| Serializer.RoundTripIff | JumpscaleCore/me/EncryptorTools.py:80-131 | A list the serializer accepts comes back as it was exactly when each item is faithful |
| Serializer.SingleRoundTripIff | JumpscaleCore/me/EncryptorTools.py:104-131 | The same for a single plain value |
| Serializer.PlainReinterpretedIff | JumpscaleCore/me/EncryptorTools.py:35-50 | Among plain values other than bytes exactly the lists [998, x] and [999, x, y] are taken for something else |
| Serializer.RefusedIff | JumpscaleCore/me/EncryptorTools.py:68-78 | Serializing refuses exactly the lists with a None or an unsupported item |
| Serializer.DictOnWire | JumpscaleCore/me/EncryptorTools.py:18-78 | A dict goes out behind 998 and comes back from there, whatever it holds |
| Serializer.ObjectOnWire | JumpscaleCore/me/EncryptorTools.py:18-78 | An object goes out behind 999 with md5 and json text; it is read with the schema passed in, whatever the md5, and without one only when the md5 is registered; else it is refused |
| Serializer.BytesOnWire | JumpscaleCore/me/EncryptorTools.py:18-78 | Bytes go out as they are, and come back as what they load to or, when they do not load, as themselves |
| Serializer.ListErrors | JumpscaleCore/me/EncryptorTools.py:80-131 | Which error each failing serialize and unserialize of a list raises |
| Strings.LessIff | install/threesdk/InstallTools.py:179-182 | The order of the word list: the first place where two words differ decides, and a word is less than its extensions |
| Strings.SplitJoin | install/threesdk/InstallTools.py:3682-3688 | Splitting at a separator undoes joining with it, for parts without it |
| Strings.JoinSplit | install/threesdk/InstallTools.py:3682-3688 | Joining undoes splitting, for every text |

## Left out

- Mnemonic: NFKD normalisation before the phrase check, other uses of the word list (prefix expansion, seeds), and the contents of the English list.
- LogHandling: the Redis counter and hash and the archive directory are fields of the handler; tracebacks, process ids and times in a record are part of its text, which is taken as given.
- LogProtocol: rotation and the case without msgpack (both in `LogWindow`); failing Redis or file operations. A process whose dump raised goes on with its next call.
- LogProtocol.PacedNeverRaises: holds for paced runs; `LogPacing.SafePaceIff` says that the pace cannot be relaxed. A particular run that is not paced may still raise nothing.
- LogHandling.LogAll: asks for non-empty records, which is what `_dumps` produces; an empty text would be taken for a missing record by the next dump.
- ConfigFile.FileRoundTripIff: values are booleans, integers, strings and lists of strings; floats and None are not modelled, nor are the `keys_lower` flag and remote executors. Encoding the text to bytes and back is taken to succeed.
- MyEnvironment: writing the file is one step that does not fail.
- Ham: string values and integer or absent states. Other types fall through `HAM` with no verdict or fail to convert.
- GunGraph: nodes in the backend came from `ham_mix`, so they have meta data; meta data of a change without a state table is not modelled. A raising `ham_mix` is followed up to the exception, as some souls mixed and the others not.
- GunGraph.ObeysVerdictsIff: asks for nodes that name their soul, which those in the backend do (`GunClientCode.Tracked`).
- GunClientCode: does not model a put on a soul that is not in the backend, because `get` never does one.
- GunClientCode.GunClient.Receive: does not model the final read of `get`, whose soul was rebound by its loop to the last one of the diff.
- DockerPorts.RunLoaded: starts from a factory whose containers are loaded; loading them from the directory, starting and running containers, extra ports and everything docker itself does are left out.
- DockerPorts.PortsDisjointIff: ports are numbers; whether a protocol or an extra port clashes is not asked.
- Platforms.GetParents: asks for an acyclic table, since on a cycle the original recursion does not end. The concrete table is not part of this model.
- CharTables: lowering is character by character; a capital sigma at the end of a word, which `lower` maps to another letter than elsewhere, is not told apart. Neither letter is ASCII, so no boolean word and no kept character of a key depends on it.
- Versions.StrToVersionInt: powers of 1000 are exact; the original's floating-point power is exact up to eight components.
- Serializer: an object is its schema's md5 and its fields, and a schema accepts the fields it is given; numbers stand for int, float and bool; a single value to serialize is plain.
- Shell, ssh, docker and package commands, prompts and shells, template substitution, git URLs, the BCDB, Gedis, HTTP and mail clients, signing and encryption: foreign calls and user interface.
