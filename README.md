# RobotLanguage core in Dafny

RobotLanguage turns tones into text. An audio thread listens to a microphone
and recognises one of seven tone frequencies ("notes" `1` to `7`). Each
recognised note is a symbol. The translator collects symbols into a code and
looks the code up in a dictionary from codes to Indonesian words, stored in a
trie. This project models three parts of that system and proves properties
of them:

- `trie.dfy`, module `PrefixTree` (from `trie.py`). The dictionary trie is a
  structure of heap nodes (`TrieNode`, `Trie`). Its node-walking methods are
  proved against a flat mirror of its contents, the map `daftarKata`. A
  ghost map from paths to nodes and a ghost footprint `Repr` carry the
  invariant that the trie and the mirror agree.
- `kamus_format.dfy`, module `KamusFormat` (from the parse and write loops of
  `penerjemah.py`). The one-entry-per-line `code=word` file format. It models
  Python's `str.strip`, reading a text file line by line with universal
  newlines, and `split('=', 1)`. It proves that saving and then loading gives
  the dictionary back when every code is free of `=` and neither codes nor
  words hold line breaks or surrounding whitespace. `tambah_kata` accepts
  any code, so other dictionaries can come back changed: the entry
  `"1=2" -> "x"` is written as `1=2=x` and read back as `"1" -> "2=x"`.
- `penerjemah.dfy`, module `Translator` (from `penerjemah.py`). The
  translation session: the buffer of received symbols and the live preview
  (longest inserted prefix). It also covers finalising, which greedily
  tokenises the buffer with the prefix search, plus dictionary loading, the
  built-in default dictionary and adding words. Worked lemmas over the
  default dictionary show that `"1"` finalises to `"dia"`, and that on `"21"`
  the preview shows `"pergi"` while finalising gives `"2 dia"`.
- `audio_processor.dfy`, module `ToneDetector` (from `audio_processor.py`).
  The tone detector:
  - a sample window bounded at 4410 samples, whose newest 1024 are
    processed;
  - the amplitude threshold;
  - the first-match note lookup within a 15 Hz tolerance;
  - debouncing of repeated notes;
  - the silence check that ends a transmission.

  The class methods are proved against the pure step functions `Block` and
  `Poll`. `Run` interleaves them, as the audio thread and the polling loop
  do.
- `wrappers.dfy`: an `Option` type, which stands for Python's `None`.

Where the system's documentation and the code disagree, the model follows
the code:

- **Finalising.** The documentation says finalising picks the longest code
  that *starts at* the current offset. The code calls `cari_prefix` on the
  whole remainder, so it finds codes that *extend* the remainder, and then
  jumps by that code's length (penerjemah.py:92-98). The model does the
  latter (`Translator.Finalizes`).
- **Empty codes.** The documentation says an empty code is rejected. The
  code inserts it. The longest-prefix lookup never reports it
  (`PrefixTree.EmptyCodeNeverReported`).
- **The buffer after finalising.** The documentation says finalising clears
  the buffer. `get_kalimat` does not; the caller resets it.
- **Reachable notes.** The documentation's end-to-end example detects notes
  `1`, `2`, `3`. With 1024-sample blocks the peak frequency is a multiple of
  44100/1024 Hz, and notes `1`, `2` and `7` can never be matched
  (`ToneDetector.BinNotes`).
- **The quiet threshold.** The documentation speaks of an amplitude "below"
  the threshold; the code treats an amplitude at or below it as quiet.
- **End of sequence during silence.** The documentation promises one end of
  sequence once a note has been followed by silence longer than the timeout.
  In the code, every quiet block clears `last_detected_note`
  (audio_processor.py:139-140), and the silence check fires only while that
  field is non-empty (audio_processor.py:64-65). So while the stream keeps
  delivering blocks, silence never ends a transmission; only a stream that
  stops delivering blocks right after a note does
  (`ToneDetector.QuietBlockEndsNothing`, `ToneDetector.NoEndWithoutNote`).

## Model

| member | source | states |
|---|---|---|
| `PrefixTree.WordsWithPrefix` | trie.py:34-55 | the dictionary restricted to the codes that extend `p`, `p` itself included |
| `PrefixTree.WordsThrough` | trie.py:51-55 | a node's own entry plus the entries below the children visited so far |
| `PrefixTree.LongestUpTo` | trie.py:63-71 | the word of the longest code among the first `n` non-empty prefixes of `s`, or None |
| `PrefixTree.LongestPrefixWord` | trie.py:57-73 | the word of the longest non-empty prefix of `s` that is a code, or None |
| `PrefixTree.IsLongestPrefix` | trie.py:57-73 | `s[..j]` is a non-empty code and no longer prefix of `s` is one |
| `KamusFormat.IsSpace` | penerjemah.py:16 | the characters Python's `str.isspace` accepts, which `strip` removes |
| `KamusFormat.TrimLeft` | penerjemah.py:16 | the string without its leading whitespace |
| `KamusFormat.TrimRight` | penerjemah.py:16 | the string without its trailing whitespace |
| `KamusFormat.Strip` | penerjemah.py:16 | the string without leading and trailing whitespace |
| `KamusFormat.FormatLine` | penerjemah.py:52 | the line `code=word` followed by a newline |
| `KamusFormat.Concat` | penerjemah.py:63 | the strings joined with no separator (`''.join`), used for the written file and for the buffered symbols |
| `KamusFormat.FormatAll` | penerjemah.py:51-52 | the whole file text: the entries' lines in order |
| `KamusFormat.Newlines` | penerjemah.py:14 | text-mode newline translation: `\r\n` and a lone `\r` become `\n` |
| `KamusFormat.SplitLines` | penerjemah.py:15 | the pieces a file iteration yields, each up to and including its `\n` |
| `KamusFormat.FileLines` | penerjemah.py:14-15 | the lines read from the file's text after newline translation |
| `KamusFormat.Parsed` | penerjemah.py:16-19 | the entries of the lines that parse, in order |
| `KamusFormat.LoadEntries` | penerjemah.py:14-19 | the entries `load_kamus` inserts for a file's text, in file order |
| `KamusFormat.InsertAll` | penerjemah.py:19 | the dictionary after a `tambah` for each entry in turn, later entries overwriting earlier ones |
| `Translator.JoinSpace` | penerjemah.py:105 | the tokens joined by single spaces (`' '.join`) |
| `Translator.Literals` | penerjemah.py:101 | each character of the text as a token of its own |
| `Translator.IsLongestKey` | penerjemah.py:96 | `k` is a member of maximal length (a result `max(..., key=len)` may give) |
| `Translator.IsLongestExtension` | penerjemah.py:93-96 | `k` is a longest code extending the remainder `t` |
| `Translator.NoneBefore` | penerjemah.py:93-94 | no code extends any remainder starting before offset `n` |
| `Translator.WordAt` | penerjemah.py:93-98 | offset `j` is the first whose remainder some code extends, `k` is a longest such code, and the tokens are the literals before `j` then the word of `k` |
| `Translator.Finalizes` | penerjemah.py:88-102 | the tokens of the scan: all literals when no remainder is extended, else as `WordAt` |
| `Translator.DefaultKamus` | penerjemah.py:28-43 | the fourteen default entries, in source order |
| `Translator.DefaultMap` | penerjemah.py:28-43 | the default dictionary as a map |
| `ToneDetector.NoteFrequencies` | audio_processor.py:17-25 | the seven notes and their frequencies, in lookup order |
| `ToneDetector.Near` | audio_processor.py:132 | the frequency is within 15 Hz of the target, bounds included |
| `ToneDetector.MaxAbs` | audio_processor.py:103 | the largest magnitude among the block's samples |
| `ToneDetector.PeakFrequency` | audio_processor.py:112 | bin `k`'s frequency `k * 44100 / n` |
| `ToneDetector.FirstMatch` | audio_processor.py:131-134 | the first note of the table within tolerance, or "" |
| `ToneDetector.MatchNote` | audio_processor.py:130-134 | the note the lookup reports for a frequency, or "" for none |
| `ToneDetector.Block` | audio_processor.py:103-140 | one block: a loud one sets the clock to `now` and clears the silence flag; the frequency report is queued; a loud block matching a new note records and queues it; a quiet one clears the last note |
| `ToneDetector.Poll` | audio_processor.py:63-69 | one silence check: past the strict timeout, with silence not yet reported and a note pending, it records silence, clears the note and queues an end of transmission; otherwise nothing |
| `ToneDetector.Window` | audio_processor.py:38 | the newest 4410 samples of a stream, in order |
| `ToneDetector.Append` | audio_processor.py:92 | appending one sample to a window of at most 4410, evicting the oldest when full |
| `ToneDetector.AppendAll` | audio_processor.py:92 | appending each sample in turn |
| `ToneDetector.Run` | audio_processor.py:59-69 | the state and messages after an interleaving of blocks and silence checks |
| `PrefixTree.TrieNode.constructor` | trie.py:1-5 | a new node has no children, is not the end of a code and has no word |
| `PrefixTree.Trie.constructor` | trie.py:8-10 | a new trie is valid and its contents are empty |
| `PrefixTree.Trie.SubtreeShrinks` | trie.py:54-55 | descending to a child strictly shrinks the set of paths below, so the recursive collection terminates |
| `PrefixTree.Trie.NoPathThrough` | trie.py:40-42 | when the edge for `s[i]` is missing at `s[..i]`, no path of the tree passes through `s[..i+1]` |
| `PrefixTree.Trie.AddChild` | trie.py:16-17 | a missing child is created as a fresh node at path `p+[ch]`, the tree stays valid, the contents are unchanged |
| `PrefixTree.Trie.ValidAfterAdd` | trie.py:16-17 | adding one fresh, unmarked leaf below a node keeps the trie invariant |
| `PrefixTree.Trie.PrefixClosedAfterAdd` | trie.py:16-18 | after adding a leaf, every prefix of a path is still a path |
| `PrefixTree.Trie.ChildLinksAfterAdd` | trie.py:17-18 | after adding a leaf, every child edge still leads to the node of the extended path |
| `PrefixTree.Trie.ParentLinksAfterAdd` | trie.py:17 | after adding a leaf, every path's last step is an edge of its parent |
| `PrefixTree.Trie.MarksAfterAdd` | trie.py:17 | after adding a leaf, the marked nodes are still exactly the mirror's codes, with their words |
| `PrefixTree.Trie.Tambah` | trie.py:12-22 | inserting creates the missing nodes along the code and marks the last one; the mirror gains or overwrites that one entry, the root is kept and the trie stays valid |
| `PrefixTree.Trie.Mark` | trie.py:20-22 | marking the node of `kode` sets its word and updates the mirror at `kode` only |
| `PrefixTree.Trie.MarksAfterMark` | trie.py:20-22 | marking one node keeps marked nodes equal to the mirror's codes and their words equal to the mirror's words |
| `PrefixTree.Trie.Cari` | trie.py:24-32 | exact lookup returns the word of `kode` when it is a code of the dictionary and None otherwise |
| `PrefixTree.Trie.CariPrefix` | trie.py:34-47 | the prefix search returns exactly the entries whose code extends `prefix`, `prefix` itself included |
| `PrefixTree.Trie.CollectWords` | trie.py:49-55 | the recursive collection adds exactly the entries at or below the node's path to the given result |
| `PrefixTree.Trie.ChildrenCoverWords` | trie.py:54-55 | every code strictly below a node continues along one of its children, so visiting the children collects everything |
| `PrefixTree.WordsThroughChild` | trie.py:54-55 | visiting one more child adds exactly the entries below that child |
| `PrefixTree.OwnWordOnly` | trie.py:51-52 | before any child is visited only the node's own entry is collected |
| `PrefixTree.Trie.CariTerpanjang` | trie.py:57-73 | the walk returns the word of the longest non-empty prefix of the input that is a code, or None |
| `PrefixTree.LongestUpToMeaning` | trie.py:63-71 | the last word recorded among the first `n` prefixes is that of the longest such prefix that is a code; None exactly when none is |
| `PrefixTree.LongestPrefixWordMeaning` | trie.py:57-73 | the lookup is None exactly when no non-empty prefix is a code, else the word of the longest one |
| `PrefixTree.LongestUpToStable` | trie.py:64-65 | once the walk leaves the tree no later prefix is a code, so stopping early gives the same answer |
| `PrefixTree.EmptyCodeNeverReported` | trie.py:59-63 | an inserted empty code never affects the longest-prefix answer, because the root's mark is never read |
| `KamusFormat.TrimLeftMeaning` | penerjemah.py:16 | `lstrip` removes exactly the leading whitespace |
| `KamusFormat.TrimRightMeaning` | penerjemah.py:16 | `rstrip` removes exactly the trailing whitespace |
| `KamusFormat.StripMeaning` | penerjemah.py:16 | `strip` yields a trimmed middle part of the line with only whitespace around it |
| `KamusFormat.StripTrimmed` | penerjemah.py:19 | stripping a string without surrounding whitespace leaves it unchanged |
| `KamusFormat.FirstIndex` | penerjemah.py:18 | the split position is an occurrence of the separator with none before it |
| `KamusFormat.ParseLine` | penerjemah.py:16-19 | a line yields an entry exactly when its stripped form contains `=` (so blank lines are skipped) |
| `KamusFormat.ParseLineMeaning` | penerjemah.py:16-19 | a parsed entry is the stripped line cut at its first `=`, each half stripped |
| `KamusFormat.ParseFormatLine` | penerjemah.py:52 | a written line of a well-formed entry parses back to that entry |
| `KamusFormat.FormatLines` | penerjemah.py:51-52 | one written line per entry |
| `KamusFormat.FormatAllSnoc` | penerjemah.py:51-52 | writing one more entry appends exactly its line to the text |
| `KamusFormat.NewlinesMeaning` | penerjemah.py:14 | newline translation leaves no carriage return, and leaves text that has none unchanged |
| `KamusFormat.SplitLinesMeaning` | penerjemah.py:15 | iterating a file yields pieces that concatenate to the text, each ending at its only newline except possibly the last |
| `KamusFormat.InsertAllMeaning` | penerjemah.py:15-19 | inserting entries in order gives all their codes, keeps untouched codes, and each code ends with its last word |
| `KamusFormat.InsertEnumeration` | penerjemah.py:45-46 | inserting a duplicate-free listing of a dictionary into an empty one rebuilds it |
| `KamusFormat.NoCarriageReturn` | penerjemah.py:52 | the text written for well-formed entries has no carriage return |
| `KamusFormat.SplitFormatted` | penerjemah.py:51-52 | reading the written text line by line gives back exactly the written lines |
| `KamusFormat.ParsedFormatted` | penerjemah.py:17-19 | every written line parses, to its own entry, in order |
| `KamusFormat.FormatLoadRoundTrip` | penerjemah.py:48-52 | writing well-formed entries and loading the text yields the same entries in the same order |
| `KamusFormat.SaveLoadRoundTrip` | penerjemah.py:11-19 | saving a dictionary of well-formed entries and loading the file gives the same dictionary |
| `Translator.LongestKeyExists` | penerjemah.py:96 | a non-empty set of codes has an element of maximal length, so `max(..., key=len)` is defined |
| `Translator.FinalizeShape` | penerjemah.py:92-102 | finalising emits literal characters in order and at most one dictionary word, which is last; only literals when no code extends any remainder |
| `Translator.OnlyLiterals` | penerjemah.py:99-102 | when no code extends any remainder, every character is emitted as a literal |
| `Translator.WordAtShape` | penerjemah.py:94-98 | a scan ending on a word emits that many literals and then the word of a code extending the remainder |
| `Translator.DefaultDistinct` | penerjemah.py:28-43 | the default codes are pairwise distinct |
| `Translator.DefaultKeys` | penerjemah.py:28-43 | every code of the default map comes from the default entries |
| `Translator.DefaultKamusMap` | penerjemah.py:45-46 | inserting the default entries into an empty dictionary gives the default map |
| `Translator.DefaultCodes` | penerjemah.py:28-43 | default codes have at most three symbols, `"123"` is the only one with three, and none extends `"21"` |
| `Translator.Penerjemah.constructor` | penerjemah.py:5-9 | a new session has a valid trie made only of new nodes, an empty buffer and an empty history; the dictionary is the file's entries inserted in order, or the default map when there is no file |
| `Translator.Penerjemah.LoadKamus` | penerjemah.py:11-24 | with a file, every parsing line is inserted in file order; without one, the default entries are inserted |
| `Translator.Penerjemah.LoadLines` | penerjemah.py:15-19 | the loop inserts exactly the parsed entries of the file, in order, and keeps the trie valid |
| `Translator.Penerjemah.CreateDefaultKamus` | penerjemah.py:26-46 | the default entries are inserted in source order |
| `Translator.Penerjemah.TambahSemua` | penerjemah.py:45-46 | the loop inserts each entry in turn |
| `Translator.Penerjemah.SaveKamus` | penerjemah.py:48-52 | the text written is one `code=word` line for each dictionary entry, each entry exactly once |
| `Translator.Penerjemah.ProsesInput` | penerjemah.py:54-66 | empty input is ignored with result None; otherwise it is appended and the result is the longest-prefix word of the joined buffer |
| `Translator.Penerjemah.GetKalimatSementara` | penerjemah.py:68-80 | the preview is "" for an empty buffer, else the longest-prefix word when it is non-empty, else the symbols joined by spaces; nothing changes |
| `Translator.Penerjemah.GetKalimat` | penerjemah.py:82-105 | an empty buffer gives "" and no history change; otherwise the tokens of the greedy scan are appended to the history and returned joined by spaces, and the buffer is kept |
| `Translator.Penerjemah.Tokenise` | penerjemah.py:88-102 | the scan's tokens are literals up to the first offset that some code extends, then the word of a longest such code |
| `Translator.Penerjemah.Reset` | penerjemah.py:107-109 | the buffer is emptied and the history kept |
| `Translator.Penerjemah.TambahKata` | penerjemah.py:111-113 | adding a word inserts or overwrites exactly that entry |
| `Translator.DefaultFinalizeOne` | penerjemah.py:92-98 | with the default dictionary, `"1"` finalises to exactly `["dia"]`, because `"123"` is the longest code extending `"1"` |
| `Translator.LongestExtensionOfOne` | penerjemah.py:96 | `"123"` is the one longest default code extending `"1"` |
| `Translator.DefaultFinalizeTwoOne` | penerjemah.py:92-102 | with the default dictionary, `"21"` finalises to exactly `["2", "dia"]` |
| `Translator.PreviewOfTwoOne` | penerjemah.py:73-77 | the preview of `"21"` with the default dictionary is `"pergi"` |
| `Translator.PreviewDiffersFromFinal` | penerjemah.py:82-105 | for the buffer `["2", "1"]` the preview is `"pergi"` but finalising shows `"2 dia"` |
| `ToneDetector.MaxAbsMeaning` | audio_processor.py:103 | the amplitude bounds every sample's magnitude and is the magnitude of some sample |
| `ToneDetector.FirstMatchMeaning` | audio_processor.py:130-134 | the lookup yields the first table entry within tolerance, and no note exactly when none is |
| `ToneDetector.FirstMatchAt` | audio_processor.py:131-134 | the first entry within tolerance is the one reported |
| `ToneDetector.AtMostOneNear` | audio_processor.py:17-26 | no frequency is within tolerance of two table notes |
| `ToneDetector.BinNotes` | audio_processor.py:112-134 | over 1024 samples, bins 49 to 52 give notes 3 to 6 and every other bin gives no note |
| `ToneDetector.NoneNear` | audio_processor.py:131-132 | a frequency outside every tolerance band matches no note |
| `ToneDetector.UnreachableNotes` | audio_processor.py:17-26 | notes 1, 2 and 7 are never reported for 1024-sample blocks |
| `ToneDetector.BlockReportsFirst` | audio_processor.py:116-138 | each block queues exactly one frequency report, first, and at most one note after it |
| `ToneDetector.BlockDebounce` | audio_processor.py:128-138 | a note is queued exactly when the block is loud and matches a note other than the last one, which then becomes the last note |
| `ToneDetector.RepeatedNoteOnce` | audio_processor.py:136-138 | two loud blocks in a row matching the same note queue it at most once |
| `ToneDetector.NoMatchKeepsNote` | audio_processor.py:130-136 | a loud block matching nothing keeps the last note and queues only the frequency report |
| `ToneDetector.ThresholdEffects` | audio_processor.py:106-140 | a loud block restarts the silence clock and clears the silence flag; a quiet block clears the last note and touches neither |
| `ToneDetector.PollMeaning` | audio_processor.py:63-69 | the check ends a transmission exactly when the timeout has strictly passed, silence was not yet reported and a note is pending, and then records silence and forgets the note |
| `ToneDetector.SecondPollSilent` | audio_processor.py:64-69 | after a check that ends a transmission, a second check with no block between queues nothing |
| `ToneDetector.QuietBlock` | audio_processor.py:136-140 | with no note pending, a block queues a note exactly when it is loud and matches one, and never an end of transmission |
| `ToneDetector.QuietStep` | audio_processor.py:63-69 | with no note pending, a step that queues no note queues no end of transmission and leaves no note pending |
| `ToneDetector.NoEndWithoutNote` | audio_processor.py:64-69 | with no note pending, no interleaving of blocks and checks ends a transmission before a new note is queued |
| `ToneDetector.QuietBlockEndsNothing` | audio_processor.py:139-140 | after a quiet block, no end of transmission is queued until a new note is |
| `ToneDetector.WindowMeaning` | audio_processor.py:38 | the window is the newest `min(n, 4410)` samples of the stream, in order |
| `ToneDetector.WindowOfWindow` | audio_processor.py:92 | trimming the stream to its window before appending more does not change the final window |
| `ToneDetector.AppendAllIsWindow` | audio_processor.py:92 | appending the samples one at a time with eviction of the oldest gives the window of the whole stream |
| `ToneDetector.AudioProcessor.constructor` | audio_processor.py:29-38 | a new detector has an empty window, no note, no silence reported, its clock started at `now` and nothing queued |
| `ToneDetector.AudioProcessor.ProcessAudio` | audio_processor.py:100-140 | processing a block updates the state and queue as `Block` does for its amplitude and the frequency of its peak bin |
| `ToneDetector.AudioProcessor.AudioCallback` | audio_processor.py:83-98 | the window becomes the newest samples up to 4410; with at least 1024 buffered exactly the newest 1024 are processed, otherwise nothing else changes |
| `ToneDetector.AudioProcessor.SilenceCheck` | audio_processor.py:63-69 | one pass of the polling loop updates the state and queue as `Poll` does |

## Left out

- File opening, reading, writing and the `FileNotFoundError` path (penerjemah.py:13-14, 20-24, 50). These are I/O. The file's text is a parameter (`Option<string>`, None when the file is missing), and `save_kamus` returns the text it would write.
- Translator.Penerjemah.constructor: the default dictionary is not written back to a file after it is built (penerjemah.py:24). The text `SaveKamus` produces is what would be written.
- Translator.Penerjemah.SaveKamus: states that each entry is written exactly once in some order, not Python's dict insertion order.
- Translator.Penerjemah.Tokenise: when several longest codes tie, Python keeps the first in trie traversal order (trie.py:54, penerjemah.py:96). The model allows any longest code.
- `print` calls (penerjemah.py:20, 22; audio_processor.py:85-86) have no effect on the model.
- The pyaudio stream: `start_listening`'s open, start, stop and close calls, `stop_listening`, `__del__`, `time.sleep`, and the `is_running` and `stream.is_active()` loop condition (audio_processor.py:40-81, 144-147). These are device I/O. The loop body is `SilenceCheck`.
- The wall clock `time.time()`: the current time is the parameter `now`.
- The message queue's thread safety and the two threads (audio_processor.py:40-74): the queue is an appended sequence, and the threads are interleaved calls (`Run`), each call atomic. In the source, the silence check (audio_processor.py:64-69) and `process_audio` (audio_processor.py:106-108, 136-140) touch the same fields without a lock. A block can run between the check's test and its writes: a note recorded at line 137 is then cleared at line 69. The model does not capture such interleavings inside a call.
- The `error` message queued when the device fails (audio_processor.py:71-72) is not modelled.
- ToneDetector.AudioProcessor.ProcessAudio: samples, amplitude and frequencies are exact reals, not float32/float64. The FFT and its `argmax` (audio_processor.py:89, 111-118) are numerics, so the peak bin is an input. The bins nearest a band edge (48 and 53) miss it by about 2 Hz, far more than floating-point rounding, so note matching is unaffected.
- The branch for an empty FFT (audio_processor.py:141-142) is not modelled. A real FFT of `n` samples has `n/2 + 1` bins, so that branch never runs for the 1024-sample blocks the callback passes.
- main.py (the interface, history widgets, save dialog) is not part of this model.
